/** Snapshot-based progress detection: src/core/loop/progress-tracker.ts.

    `HashTodos` turns a todo list into a canonical text. The tracker compares these texts to
    decide whether an agent made progress and counts the checks that found none. The traces
    at the end say what that count means without looking at the tracker's fields. */
module ProgressTracker {
  import opened Prelude
  import opened StableSort

  const SENTINEL: string := "\U{FFFF}"
  const DEFAULT_STAGNATION_THRESHOLD := 3

  datatype NormalizedTodo = NormalizedTodo(id: Option<string>, content: string, priority: string, status: string) {
    /** What the comparator sees of the id: a missing one compares like the sentinel. */
    function IdKey(): string {
      if id.None? then SENTINEL else id.value
    }
  }

  // ---------------------------------------------------------------------------
  // JSON.stringify on a list of todos
  // ---------------------------------------------------------------------------

  function HexDigit(n: nat): char
    requires n < 16
  {
    "0123456789abcdef"[n]
  }

  /** One character inside a JSON string, escaped as in section 7 of RFC 8259. */
  function EscapeChar(c: char): string {
    if c == '\"' then "\\\""
    else if c == '\\' then "\\\\"
    else if c == 8 as char then "\\b"
    else if c == 9 as char then "\\t"
    else if c == 10 as char then "\\n"
    else if c == 12 as char then "\\f"
    else if c == 13 as char then "\\r"
    else if c < ' ' then "\\u00" + [HexDigit(c as int / 16), HexDigit(c as int % 16)]
    else [c]
  }

  function EscapeAll(s: string): string {
    if s == [] then [] else EscapeChar(s[0]) + EscapeAll(s[1..])
  }

  function JsonString(s: string): string {
    "\"" + (EscapeAll(s) + "\"")
  }

  function JsonId(id: Option<string>): string {
    if id.None? then "null" else JsonString(id.value)
  }

  function JsonTodo(t: NormalizedTodo): string {
    "{\"id\":" + (JsonId(t.id) + (",\"content\":" + (JsonString(t.content)
    + (",\"priority\":" + (JsonString(t.priority) + (",\"status\":" + (JsonString(t.status) + "}")))))))
  }

  function JsonItems(s: seq<NormalizedTodo>): string {
    if s == [] then "]"
    else JsonTodo(s[0]) + (if |s| == 1 then "]" else "," + JsonItems(s[1..]))
  }

  function JsonTodos(s: seq<NormalizedTodo>): string {
    "[" + JsonItems(s)
  }

  lemma HexDigitIsInjective(a: nat, b: nat)
    requires a < 16 && b < 16 && HexDigit(a) == HexDigit(b)
    ensures a == b
  {
  }

  lemma AppendCancels<T>(p: seq<T>, x: seq<T>, y: seq<T>)
    requires p + x == p + y
    ensures x == y
  {
    assert x == (p + x)[|p|..] && y == (p + y)[|p|..];
  }

  /** No escape is the beginning of another one. */
  lemma EscapeCharIsPrefixFree(a: char, b: char, x: string, y: string)
    requires EscapeChar(a) + x == EscapeChar(b) + y
    ensures a == b && x == y
  {
    var u, v := EscapeChar(a) + x, EscapeChar(b) + y;
    assert u[0] == EscapeChar(a)[0] && v[0] == EscapeChar(b)[0];
    if |EscapeChar(a)| > 1 && |EscapeChar(b)| > 1 {
      assert u[1] == EscapeChar(a)[1] && v[1] == EscapeChar(b)[1];
      if |EscapeChar(a)| == 6 && |EscapeChar(b)| == 6 {
        assert u[4] == EscapeChar(a)[4] && v[4] == EscapeChar(b)[4];
        assert u[5] == EscapeChar(a)[5] && v[5] == EscapeChar(b)[5];
        HexDigitIsInjective(a as int / 16, b as int / 16);
        HexDigitIsInjective(a as int % 16, b as int % 16);
      }
    }
    assert a == b;
    AppendCancels(EscapeChar(a), x, y);
  }

  lemma Associates<T>(a: seq<T>, b: seq<T>, c: seq<T>)
    ensures (a + b) + c == a + (b + c)
  {
  }

  lemma EscapeCharStarts(c: char)
    ensures EscapeChar(c) != [] && EscapeChar(c)[0] != '\"'
  {
  }

  /** No escape starts with the closing quote. */
  lemma EscapeAllStarts(s: string, x: string)
    ensures var u := EscapeAll(s) + ("\"" + x);
      if s == [] then u == "\"" + x
      else u == EscapeChar(s[0]) + (EscapeAll(s[1..]) + ("\"" + x)) && u[0] != '\"'
  {
    if s != [] {
      EscapeCharStarts(s[0]);
      Associates(EscapeChar(s[0]), EscapeAll(s[1..]), "\"" + x);
    }
  }

  lemma {:induction false} EscapeAllIsPrefixFree(s: string, t: string, x: string, y: string)
    requires EscapeAll(s) + ("\"" + x) == EscapeAll(t) + ("\"" + y)
    ensures s == t && x == y
  {
    EscapeAllStarts(s, x);
    EscapeAllStarts(t, y);
    if s == [] || t == [] {
      assert ("\"" + x)[0] == '\"' && ("\"" + y)[0] == '\"';
      AppendCancels("\"", x, y);
    } else {
      EscapeCharIsPrefixFree(s[0], t[0], EscapeAll(s[1..]) + ("\"" + x), EscapeAll(t[1..]) + ("\"" + y));
      EscapeAllIsPrefixFree(s[1..], t[1..], x, y);
      assert s == [s[0]] + s[1..] && t == [t[0]] + t[1..];
    }
  }

  lemma JsonStringIsPrefixFree(s: string, t: string, x: string, y: string)
    requires JsonString(s) + x == JsonString(t) + y
    ensures s == t && x == y
  {
    assert JsonString(s) + x == "\"" + (EscapeAll(s) + ("\"" + x));
    assert JsonString(t) + y == "\"" + (EscapeAll(t) + ("\"" + y));
    AppendCancels("\"", EscapeAll(s) + ("\"" + x), EscapeAll(t) + ("\"" + y));
    EscapeAllIsPrefixFree(s, t, x, y);
  }

  lemma JsonIdIsPrefixFree(a: Option<string>, b: Option<string>, x: string, y: string)
    requires JsonId(a) + x == JsonId(b) + y
    ensures a == b && x == y
  {
    var u, v := JsonId(a) + x, JsonId(b) + y;
    assert u[0] == JsonId(a)[0] && v[0] == JsonId(b)[0];
    if a.None? {
      AppendCancels("null", x, y);
    } else {
      JsonStringIsPrefixFree(a.value, b.value, x, y);
    }
  }

  /** The text of a todo after its id. */
  function JsonRest(t: NormalizedTodo, x: string): string {
    ",\"content\":" + (JsonString(t.content) + (",\"priority\":" + (JsonString(t.priority)
    + (",\"status\":" + (JsonString(t.status) + ("}" + x))))))
  }

  lemma JsonTodoSplits(t: NormalizedTodo, x: string)
    ensures JsonTodo(t) + x == "{\"id\":" + (JsonId(t.id) + JsonRest(t, x))
  {
    var a, b := JsonString(t.status) + "}", JsonString(t.status) + ("}" + x);
    assert a + x == b;
    var c := JsonString(t.priority) + (",\"status\":" + a);
    var d := JsonString(t.priority) + (",\"status\":" + b);
    assert c + x == d;
    assert (JsonString(t.content) + (",\"priority\":" + c)) + x == JsonString(t.content) + (",\"priority\":" + d);
  }

  lemma JsonRestIsPrefixFree(a: NormalizedTodo, b: NormalizedTodo, x: string, y: string)
    requires JsonRest(a, x) == JsonRest(b, y)
    ensures a.content == b.content && a.priority == b.priority && a.status == b.status && x == y
  {
    var s0, t0 := JsonString(a.status) + ("}" + x), JsonString(b.status) + ("}" + y);
    var s1, t1 := ",\"status\":" + s0, ",\"status\":" + t0;
    var s2, t2 := JsonString(a.priority) + s1, JsonString(b.priority) + t1;
    var s3, t3 := ",\"priority\":" + s2, ",\"priority\":" + t2;
    var s4, t4 := JsonString(a.content) + s3, JsonString(b.content) + t3;
    AppendCancels(",\"content\":", s4, t4);
    JsonStringIsPrefixFree(a.content, b.content, s3, t3);
    AppendCancels(",\"priority\":", s2, t2);
    JsonStringIsPrefixFree(a.priority, b.priority, s1, t1);
    AppendCancels(",\"status\":", s0, t0);
    JsonStringIsPrefixFree(a.status, b.status, "}" + x, "}" + y);
    AppendCancels("}", x, y);
  }

  lemma JsonTodoIsPrefixFree(a: NormalizedTodo, b: NormalizedTodo, x: string, y: string)
    requires JsonTodo(a) + x == JsonTodo(b) + y
    ensures a == b && x == y
  {
    JsonTodoSplits(a, x);
    JsonTodoSplits(b, y);
    AppendCancels("{\"id\":", JsonId(a.id) + JsonRest(a, x), JsonId(b.id) + JsonRest(b, y));
    JsonIdIsPrefixFree(a.id, b.id, JsonRest(a, x), JsonRest(b, y));
    JsonRestIsPrefixFree(a, b, x, y);
  }

  /** What follows the first todo. */
  function JsonTail(s: seq<NormalizedTodo>): string
    requires s != []
  {
    if |s| == 1 then "]" else "," + JsonItems(s[1..])
  }

  lemma JsonItemsStart(s: seq<NormalizedTodo>)
    ensures JsonItems(s)[0] == '{' <==> s != []
  {
    if s != [] {
      assert JsonItems(s) == JsonTodo(s[0]) + JsonTail(s);
      assert JsonTodo(s[0])[0] == '{';
    }
  }

  lemma {:induction false} JsonItemsIsInjective(s: seq<NormalizedTodo>, t: seq<NormalizedTodo>)
    requires JsonItems(s) == JsonItems(t)
    ensures s == t
  {
    if s == [] || t == [] {
      JsonItemsStart(s);
      JsonItemsStart(t);
    } else {
      JsonTodoIsPrefixFree(s[0], t[0], JsonTail(s), JsonTail(t));
      assert JsonTail(s)[0] == JsonTail(t)[0];
      if |s| > 1 {
        AppendCancels(",", JsonItems(s[1..]), JsonItems(t[1..]));
        JsonItemsIsInjective(s[1..], t[1..]);
        assert s == [s[0]] + s[1..] && t == [t[0]] + t[1..];
      }
    }
  }

  /** Different lists have different texts. */
  lemma JsonTodosIsInjective(s: seq<NormalizedTodo>, t: seq<NormalizedTodo>)
    requires JsonTodos(s) == JsonTodos(t)
    ensures s == t
  {
    AppendCancels("[", JsonItems(s), JsonItems(t));
    JsonItemsIsInjective(s, t);
  }

  // ---------------------------------------------------------------------------
  // hashTodos
  // ---------------------------------------------------------------------------

  /** The comparator of `hashTodos` as "not after", over the string order `leq`
      (`localeCompare`). */
  predicate TodoLeq(leq: (string, string) -> bool, a: NormalizedTodo, b: NormalizedTodo) {
    if a.IdKey() != b.IdKey() then leq(a.IdKey(), b.IdKey())
    else if a.content != b.content then leq(a.content, b.content)
    else if a.priority != b.priority then leq(a.priority, b.priority)
    else leq(a.status, b.status)
  }

  function ByFields(leq: (string, string) -> bool): (NormalizedTodo, NormalizedTodo) -> bool {
    (a, b) => TodoLeq(leq, a, b)
  }

  function HashTodos(leq: (string, string) -> bool, todos: seq<NormalizedTodo>): string {
    JsonTodos(Sort(ByFields(leq), todos))
  }

  function CountCompleted(todos: seq<NormalizedTodo>): nat {
    if todos == [] then 0
    else CountCompleted(todos[..|todos| - 1]) + (if todos[|todos| - 1].status == "completed" then 1 else 0)
  }

  lemma SnapshotsAreNotEmpty(leq: (string, string) -> bool, todos: seq<NormalizedTodo>)
    ensures HashTodos(leq, todos) != ""
  {
  }

  lemma ByFieldsIsTotal(leq: (string, string) -> bool)
    requires TotalOrder(leq)
    ensures TotalPreorder(ByFields(leq))
  {
    forall a, b ensures ByFields(leq)(a, b) || ByFields(leq)(b, a) {
      assert leq(a.IdKey(), b.IdKey()) || leq(b.IdKey(), a.IdKey());
      assert leq(a.content, b.content) || leq(b.content, a.content);
      assert leq(a.priority, b.priority) || leq(b.priority, a.priority);
    }
    forall a, b, c | ByFields(leq)(a, b) && ByFields(leq)(b, c) ensures ByFields(leq)(a, c) {
    }
  }

  /** A todo without an id beside one that differs from it only by carrying the sentinel. */
  ghost predicate Clashes(s: seq<NormalizedTodo>) {
    exists a :: a in s && a.id.None? && a.(id := Some("\U{FFFF}")) in s
  }

  lemma TiesAreClashes(leq: (string, string) -> bool, a: NormalizedTodo, b: NormalizedTodo, s: seq<NormalizedTodo>)
    requires TotalOrder(leq) && a in s && b in s && Tied(ByFields(leq), a, b) && a != b
    ensures Clashes(s)
  {
    assert a.IdKey() == b.IdKey() && a.content == b.content && a.priority == b.priority && a.status == b.status;
    if a.id.None? {
      assert b == a.(id := Some(SENTINEL));
    } else {
      assert b.id.None? && a == b.(id := Some(SENTINEL));
    }
  }

  /** Equal snapshots always mean the same todos, whatever the order of the two lists ... */
  lemma EqualSnapshotsMeanEqualTodos(leq: (string, string) -> bool, s: seq<NormalizedTodo>, t: seq<NormalizedTodo>)
    requires HashTodos(leq, s) == HashTodos(leq, t)
    ensures multiset(s) == multiset(t)
  {
    JsonTodosIsInjective(Sort(ByFields(leq), s), Sort(ByFields(leq), t));
    SortContents(ByFields(leq), s);
    SortContents(ByFields(leq), t);
  }

  /** ... and, when no id equals the sentinel beside a missing one, the same todos always
      give equal snapshots. */
  lemma SnapshotsAreCanonical(leq: (string, string) -> bool, s: seq<NormalizedTodo>, t: seq<NormalizedTodo>)
    requires TotalOrder(leq) && !Clashes(s)
    ensures HashTodos(leq, s) == HashTodos(leq, t) <==> multiset(s) == multiset(t)
  {
    if HashTodos(leq, s) == HashTodos(leq, t) {
      EqualSnapshotsMeanEqualTodos(leq, s, t);
    }
    if multiset(s) == multiset(t) {
      var order := ByFields(leq);
      ByFieldsIsTotal(leq);
      SortContents(order, s);
      SortContents(order, t);
      SortIsStableSort(order, s);
      SortIsStableSort(order, t);
      forall a, b | a in Sort(order, s) && b in Sort(order, s) && order(a, b) && order(b, a) ensures a == b {
        assert a in multiset(s) && b in multiset(s);
        if a != b { TiesAreClashes(leq, a, b, s); }
      }
      SortedOnceOnly(order, Sort(order, s), Sort(order, t));
    }
  }

  ghost predicate OrderIsIrrelevant(leq: (string, string) -> bool, s: seq<NormalizedTodo>) {
    forall t :: multiset(t) == multiset(s) ==> HashTodos(leq, t) == HashTodos(leq, s)
  }

  lemma WithLast<T>(s: seq<T>, a: T) returns (rest: seq<T>)
    requires a in s
    ensures multiset(rest + [a]) == multiset(s)
    ensures forall b :: b in s && b != a ==> b in rest
  {
    var i :| 0 <= i < |s| && s[i] == a;
    rest := s[..i] + s[i + 1..];
    assert s == s[..i] + [a] + s[i + 1..];
  }

  lemma WithLastTwo<T>(s: seq<T>, a: T, b: T) returns (rest: seq<T>)
    requires a in s && b in s && a != b
    ensures multiset(rest + [a, b]) == multiset(rest + [b, a]) == multiset(s)
  {
    var r := WithLast(s, a);
    rest := WithLast(r, b);
    assert rest + [b, a] == (rest + [b]) + [a];
    assert multiset(r + [a]) == multiset(r) + multiset{a};
    assert multiset((rest + [b]) + [a]) == multiset(rest + [b]) + multiset{a};
  }

  lemma PermutationsHashAlike(leq: (string, string) -> bool, s: seq<NormalizedTodo>,
                              t: seq<NormalizedTodo>, u: seq<NormalizedTodo>)
    requires OrderIsIrrelevant(leq, s) && multiset(t) == multiset(s) && multiset(u) == multiset(s)
    ensures HashTodos(leq, t) == HashTodos(leq, u)
  {
  }

  lemma ClashMakesOrderMatter(leq: (string, string) -> bool, s: seq<NormalizedTodo>)
    requires TotalOrder(leq) && Clashes(s)
    ensures !OrderIsIrrelevant(leq, s)
  {
    var a :| a in s && a.id.None? && a.(id := Some(SENTINEL)) in s;
    var b := a.(id := Some(SENTINEL));
    var rest := WithLastTwo(s, a, b);
    if OrderIsIrrelevant(leq, s) {
      PermutationsHashAlike(leq, s, rest + [b, a], rest + [a, b]);
      TiedListsDiffer(leq, rest, a, b);
    }
  }

  /** The order of a list is invisible in its snapshot exactly when it holds no clash. */
  lemma OrderMattersExactlyOnClashes(leq: (string, string) -> bool, s: seq<NormalizedTodo>)
    requires TotalOrder(leq)
    ensures OrderIsIrrelevant(leq, s) <==> !Clashes(s)
  {
    if Clashes(s) {
      ClashMakesOrderMatter(leq, s);
    } else {
      forall t | multiset(t) == multiset(s) ensures HashTodos(leq, t) == HashTodos(leq, s) {
        SnapshotsAreCanonical(leq, s, t);
      }
    }
  }

  lemma TiedListsDiffer(leq: (string, string) -> bool, rest: seq<NormalizedTodo>, a: NormalizedTodo, b: NormalizedTodo)
    requires TotalOrder(leq) && a.id.None? && b == a.(id := Some(SENTINEL))
    ensures HashTodos(leq, rest + [b, a]) != HashTodos(leq, rest + [a, b])
  {
    var order := ByFields(leq);
    var t, u := rest + [b, a], rest + [a, b];
    ByFieldsIsTotal(leq);
    assert leq(a.status, a.status);
    SortIsStableSort(order, t);
    SortIsStableSort(order, u);
    assert Tied(order, a, a) && Tied(order, b, a);
    var ct, cu := Class(order, t, a), Class(order, u, a);
    assert t[|t| - 1] == a && u[|u| - 1] == b;
    assert ct[|ct| - 1] == a && cu[|cu| - 1] == b;
    assert Class(order, Sort(order, t), a) != Class(order, Sort(order, u), a);
    if HashTodos(leq, t) == HashTodos(leq, u) {
      JsonTodosIsInjective(Sort(order, t), Sort(order, u));
    }
  }

  /** Two todos on which the order does matter. */
  lemma SentinelIdChangesSnapshot(leq: (string, string) -> bool)
    requires TotalOrder(leq)
    ensures
      var a := NormalizedTodo(None, "c", "p", "s");
      var b := NormalizedTodo(Some("\U{FFFF}"), "c", "p", "s");
      HashTodos(leq, [a, b]) != HashTodos(leq, [b, a])
  {
    var a := NormalizedTodo(None, "c", "p", "s");
    var b := NormalizedTodo(Some(SENTINEL), "c", "p", "s");
    TiedListsDiffer(leq, [], a, b);
    assert [] + [b, a] == [b, a] && [] + [a, b] == [a, b];
  }

  // ---------------------------------------------------------------------------
  // The tracker
  // ---------------------------------------------------------------------------

  datatype TrackerState = TrackerState(
    stagnationCount: nat,
    lastIncompleteCount: Option<int>,
    lastSnapshot: Option<string>,
    awaitingPostInjectionProgressCheck: bool,
    countCompleted: Option<nat>)

  const INITIAL := TrackerState(0, None, None, false, None)

  datatype Source = NoSource | Count | Snapshot

  datatype ProgressUpdateResult = ProgressUpdateResult(
    hasProgressed: bool,
    stagnationCount: nat,
    previousIncompleteCount: Option<int>,
    progressSource: Source,
    recoveredFromStagnation: Option<bool>)

  function CountProgress(st: TrackerState, incomplete: int): bool {
    st.lastIncompleteCount.None? || incomplete < st.lastIncompleteCount.value
  }

  predicate SnapshotProgress(st: TrackerState, snapshot: Option<string>) {
    snapshot.Some? && st.lastSnapshot.Some? && snapshot != st.lastSnapshot
  }

  /** What a check derives from the list it is given, if any. */
  datatype Digest = Digest(snapshot: Option<string>, completed: Option<nat>)

  function DigestOf(leq: (string, string) -> bool, todos: Option<seq<NormalizedTodo>>): Digest {
    if todos.None? then Digest(None, None)
    else Digest(Some(HashTodos(leq, todos.value)), Some(CountCompleted(todos.value)))
  }

  /** The state after a check. */
  function Tracked(st: TrackerState, incomplete: int, digest: Digest): TrackerState {
    var progress := CountProgress(st, incomplete) || SnapshotProgress(st, digest.snapshot);
    var baseline := st.lastIncompleteCount.None?;
    TrackerState(
      if baseline || progress then 0
      else st.stagnationCount + (if st.awaitingPostInjectionProgressCheck then 1 else 0),
      Some(incomplete),
      if digest.snapshot.Some? then digest.snapshot else st.lastSnapshot,
      st.awaitingPostInjectionProgressCheck && (baseline || !progress),
      if digest.completed.Some? then digest.completed else st.countCompleted)
  }

  /** What the check reports. */
  function Report(st: TrackerState, incomplete: int, digest: Digest): ProgressUpdateResult {
    var count := Tracked(st, incomplete, digest).stagnationCount;
    var recovered := Some(st.stagnationCount >= DEFAULT_STAGNATION_THRESHOLD);
    if st.lastIncompleteCount.Some? && incomplete < st.lastIncompleteCount.value then
      ProgressUpdateResult(true, count, st.lastIncompleteCount, Count, recovered)
    else if st.lastIncompleteCount.Some? && SnapshotProgress(st, digest.snapshot) then
      ProgressUpdateResult(true, count, st.lastIncompleteCount, Snapshot, recovered)
    else
      ProgressUpdateResult(false, count, st.lastIncompleteCount, NoSource, None)
  }

  function EntryOf(states: map<string, TrackerState>, sessionID: string): Option<TrackerState> {
    if sessionID in states then Some(states[sessionID]) else None
  }

  /** An unknown session is never stagnant, not even for a threshold of 0. */
  predicate Stagnant(entry: Option<TrackerState>, threshold: int) {
    entry.Some? && entry.value.stagnationCount >= threshold
  }

  function StateOf(states: map<string, TrackerState>, sessionID: string): TrackerState {
    if sessionID in states then states[sessionID] else INITIAL
  }

  /** The body of `trackProgress` once the session's state and the list's digest are known. */
  method Compare(before: TrackerState, incompleteCount: int, digest: Digest)
    returns (state: TrackerState, result: ProgressUpdateResult)
    requires digest.snapshot != Some("")
    ensures state == Tracked(before, incompleteCount, digest)
    ensures result == Report(before, incompleteCount, digest)
  {
    state := before;
    var previousIncompleteCount := state.lastIncompleteCount;
    var hasSnapshotChanged :=
      digest.snapshot.Some? && state.lastSnapshot.Some? && digest.snapshot != state.lastSnapshot;

    var hasProgressed, progressSource := false, NoSource;
    if previousIncompleteCount.None? || incompleteCount < previousIncompleteCount.value {
      hasProgressed, progressSource := true, Count;
    } else if hasSnapshotChanged {
      hasProgressed, progressSource := true, Snapshot;
    }

    state := state.(lastIncompleteCount := Some(incompleteCount));
    if digest.snapshot.Some? && digest.snapshot.value != "" {
      state := state.(lastSnapshot := digest.snapshot);
    }
    if digest.completed.Some? {
      state := state.(countCompleted := digest.completed);
    }

    if previousIncompleteCount.None? {
      state := state.(stagnationCount := 0);
      result := ProgressUpdateResult(false, 0, previousIncompleteCount, NoSource, None);
      return;
    }
    if hasProgressed {
      var wasStagnant := state.stagnationCount >= DEFAULT_STAGNATION_THRESHOLD;
      state := state.(stagnationCount := 0, awaitingPostInjectionProgressCheck := false);
      result := ProgressUpdateResult(true, 0, previousIncompleteCount, progressSource, Some(wasStagnant));
      return;
    }
    if state.awaitingPostInjectionProgressCheck {
      state := state.(stagnationCount := state.stagnationCount + 1);
    }
    result := ProgressUpdateResult(false, state.stagnationCount, previousIncompleteCount, NoSource, None);
  }

  class ProgressTracker {
    const leq: (string, string) -> bool
    var sessionStates: map<string, TrackerState>

    constructor (leq: (string, string) -> bool)
      ensures sessionStates == map[] && this.leq == leq
    {
      this.leq := leq;
      sessionStates := map[];
    }

    method GetState(sessionID: string) returns (state: TrackerState)
      modifies this
      ensures state == StateOf(old(sessionStates), sessionID)
      ensures sessionStates == old(sessionStates)[sessionID := state]
    {
      if sessionID in sessionStates {
        state := sessionStates[sessionID];
      } else {
        state := INITIAL;
        sessionStates := sessionStates[sessionID := state];
      }
    }

    /** Unlike the other operations, a reset does not create a session. */
    method ResetProgress(sessionID: string)
      modifies this
      ensures sessionStates == if sessionID in old(sessionStates) then old(sessionStates)[sessionID := INITIAL]
                               else old(sessionStates)
    {
      if sessionID !in sessionStates {
        return;
      }
      var state := sessionStates[sessionID];
      state := state.(stagnationCount := 0);
      state := state.(lastIncompleteCount := None);
      state := state.(lastSnapshot := None);
      state := state.(countCompleted := None);
      state := state.(awaitingPostInjectionProgressCheck := false);
      sessionStates := sessionStates[sessionID := state];
    }

    method ClearSession(sessionID: string)
      modifies this
      ensures sessionStates == old(sessionStates) - {sessionID}
    {
      sessionStates := sessionStates - {sessionID};
    }

    method DigestTodos(todos: Option<seq<NormalizedTodo>>) returns (digest: Digest)
      ensures digest == DigestOf(leq, todos)
      ensures digest.snapshot != Some("")
    {
      if todos.None? {
        return Digest(None, None);
      }
      SnapshotsAreNotEmpty(leq, todos.value);
      digest := Digest(Some(HashTodos(leq, todos.value)), Some(CountCompleted(todos.value)));
    }

    method TrackProgress(sessionID: string, incompleteCount: int, todos: Option<seq<NormalizedTodo>>)
      returns (result: ProgressUpdateResult)
      modifies this
      ensures sessionStates
           == var before := StateOf(old(sessionStates), sessionID);
              old(sessionStates)[sessionID := Tracked(before, incompleteCount, DigestOf(leq, todos))]
      ensures result == Report(StateOf(old(sessionStates), sessionID), incompleteCount, DigestOf(leq, todos))
    {
      var state := GetState(sessionID);
      var digest := DigestTodos(todos);
      state, result := Compare(state, incompleteCount, digest);
      sessionStates := sessionStates[sessionID := state];
    }

    method MarkInjectionPerformed(sessionID: string)
      modifies this
      ensures sessionStates
           == var before := StateOf(old(sessionStates), sessionID);
              old(sessionStates)[sessionID := before.(awaitingPostInjectionProgressCheck := true)]
    {
      var state := GetState(sessionID);
      sessionStates := sessionStates[sessionID := state.(awaitingPostInjectionProgressCheck := true)];
    }

    method GetStagnationCount(sessionID: string) returns (count: nat)
      ensures count == StateOf(sessionStates, sessionID).stagnationCount
    {
      count := if sessionID in sessionStates then sessionStates[sessionID].stagnationCount else 0;
    }

    method IsStagnant(sessionID: string, threshold: int := DEFAULT_STAGNATION_THRESHOLD) returns (stagnant: bool)
      ensures stagnant <==> Stagnant(EntryOf(sessionStates, sessionID), threshold)
    {
      if sessionID !in sessionStates {
        return false;
      }
      stagnant := sessionStates[sessionID].stagnationCount >= threshold;
    }

    /** One call for one session; no other session notices it. */
    method Perform(sessionID: string, e: Event)
      modifies this
      ensures EntryOf(sessionStates, sessionID) == Step(leq, EntryOf(old(sessionStates), sessionID), e)
      ensures forall other :: other != sessionID ==> EntryOf(sessionStates, other) == EntryOf(old(sessionStates), other)
    {
      match e
      case Check(incomplete, todos) => var _ := TrackProgress(sessionID, incomplete, todos);
      case Inject => MarkInjectionPerformed(sessionID);
      case Reset => ResetProgress(sessionID);
      case Clear => ClearSession(sessionID);
    }
  }

  // ---------------------------------------------------------------------------
  // Traces of one session
  // ---------------------------------------------------------------------------

  datatype Event =
    | Check(incomplete: int, todos: Option<seq<NormalizedTodo>>)
    | Inject
    | Reset
    | Clear

  /** The session's entry after the trace. */
  function After(leq: (string, string) -> bool, trace: seq<Event>): Option<TrackerState> {
    if trace == [] then None
    else Step(leq, After(leq, trace[..|trace| - 1]), trace[|trace| - 1])
  }

  function Step(leq: (string, string) -> bool, entry: Option<TrackerState>, e: Event): Option<TrackerState> {
    var st := if entry.Some? then entry.value else INITIAL;
    match e
    case Check(incomplete, todos) => Some(Tracked(st, incomplete, DigestOf(leq, todos)))
    case Inject => Some(st.(awaitingPostInjectionProgressCheck := true))
    case Reset => if entry.Some? then Some(INITIAL) else None
    case Clear => None
  }

  /** The count given to the last check since the last reset. */
  function LastCount(trace: seq<Event>): Option<int> {
    if trace == [] then None
    else match trace[|trace| - 1]
      case Check(incomplete, _) => Some(incomplete)
      case Inject => LastCount(trace[..|trace| - 1])
      case Reset => None
      case Clear => None
  }

  /** The list given to the last check that had one, since the last reset. */
  function LastTodos(trace: seq<Event>): Option<seq<NormalizedTodo>> {
    if trace == [] then None
    else match trace[|trace| - 1]
      case Check(_, todos) => if todos.Some? then todos else LastTodos(trace[..|trace| - 1])
      case Inject => LastTodos(trace[..|trace| - 1])
      case Reset => None
      case Clear => None
  }

  /** `e` is a check that finds fewer incomplete todos, or other todos, than the checks of
      `before` did. */
  ghost predicate Progresses(before: seq<Event>, e: Event) {
    e.Check? && LastCount(before).Some?
    && (e.incomplete < LastCount(before).value
        || (e.todos.Some? && LastTodos(before).Some? && multiset(e.todos.value) != multiset(LastTodos(before).value)))
  }

  /** `e` starts counting afresh. */
  ghost predicate Restarts(before: seq<Event>, e: Event) {
    e.Reset? || e.Clear? || Progresses(before, e)
  }

  ghost predicate RestartsAt(trace: seq<Event>, i: int)
    requires 0 <= i < |trace|
  {
    Restarts(trace[..i], trace[i])
  }

  /** Nothing restarted the count in `trace` from position `i` on. */
  ghost predicate QuietFrom(trace: seq<Event>, i: int)
    requires 0 <= i
  {
    forall m :: i <= m < |trace| ==> !RestartsAt(trace, m)
  }

  ghost predicate InjectedAt(trace: seq<Event>, k: int)
    requires 0 <= k < |trace|
  {
    trace[k].Inject? && QuietFrom(trace, k + 1)
  }

  /** A prompt was injected and nothing restarted the count since. */
  ghost predicate Armed(trace: seq<Event>) {
    exists k :: 0 <= k < |trace| && InjectedAt(trace, k)
  }

  /** `e` is a check after an injection that has an earlier check to compare with and finds
      no progress. */
  ghost predicate Stagnates(before: seq<Event>, e: Event) {
    e.Check? && LastCount(before).Some? && !Progresses(before, e) && Armed(before)
  }

  ghost predicate CountsAt(trace: seq<Event>, i: int)
    requires 0 <= i < |trace|
  {
    Stagnates(trace[..i], trace[i]) && QuietFrom(trace, i + 1)
  }

  /** The checks that stagnated since the count last restarted. */
  ghost function StagnantChecks(trace: seq<Event>): set<int> {
    set i | 0 <= i < |trace| && CountsAt(trace, i)
  }

  /** No list of the trace has an id that collides with the sentinel. */
  ghost predicate ClashFree(trace: seq<Event>) {
    forall i :: 0 <= i < |trace| && trace[i].Check? && trace[i].todos.Some? ==> !Clashes(trace[i].todos.value)
  }

  lemma QuietExtends(trace: seq<Event>, e: Event, i: nat)
    requires i <= |trace|
    ensures QuietFrom(trace + [e], i) <==> QuietFrom(trace, i) && !Restarts(trace, e)
  {
    var longer := trace + [e];
    forall m | 0 <= m < |trace| ensures RestartsAt(longer, m) == RestartsAt(trace, m) {
      assert longer[..m] == trace[..m];
    }
    assert longer[..|trace|] == trace && longer[|trace|] == e;
    assert RestartsAt(longer, |trace|) == Restarts(trace, e);
  }

  lemma ArmedExtends(trace: seq<Event>, e: Event)
    ensures Armed(trace + [e]) <==> e.Inject? || (Armed(trace) && !Restarts(trace, e))
  {
    var longer := trace + [e];
    if Armed(longer) {
      var k :| 0 <= k < |longer| && InjectedAt(longer, k);
      if k < |trace| {
        QuietExtends(trace, e, k + 1);
        assert InjectedAt(trace, k);
      }
    }
    if e.Inject? {
      assert InjectedAt(longer, |trace|);
    } else if Armed(trace) && !Restarts(trace, e) {
      var k :| 0 <= k < |trace| && InjectedAt(trace, k);
      QuietExtends(trace, e, k + 1);
      assert InjectedAt(longer, k);
    }
  }

  lemma ChecksExtend(trace: seq<Event>, e: Event)
    ensures StagnantChecks(trace + [e])
         == (if Restarts(trace, e) then {} else StagnantChecks(trace)) + (if Stagnates(trace, e) then {|trace|} else {})
  {
    var longer := trace + [e];
    assert longer[..|trace|] == trace && longer[|trace|] == e;
    forall i | 0 <= i < |trace| ensures CountsAt(longer, i) <==> CountsAt(trace, i) && !Restarts(trace, e) {
      assert longer[..i] == trace[..i];
      QuietExtends(trace, e, i + 1);
    }
    assert CountsAt(longer, |trace|) <==> Stagnates(trace, e);
  }

  /** The fields of the session's entry, read off the trace. */
  ghost predicate Reflects(leq: (string, string) -> bool, trace: seq<Event>, entry: Option<TrackerState>) {
    var st := if entry.Some? then entry.value else INITIAL;
    && st.stagnationCount == |StagnantChecks(trace)|
    && st.lastIncompleteCount == LastCount(trace)
    && (st.lastSnapshot.Some? <==> LastTodos(trace).Some?)
    && (LastTodos(trace).Some? ==> st.lastSnapshot.value == HashTodos(leq, LastTodos(trace).value)
                                   && !Clashes(LastTodos(trace).value))
    && st.awaitingPostInjectionProgressCheck == Armed(trace)
    && (LastCount(trace).None? ==> StagnantChecks(trace) == {})
  }

  lemma CheckReflects(leq: (string, string) -> bool, trace: seq<Event>, e: Event, entry: Option<TrackerState>)
    requires TotalOrder(leq) && Reflects(leq, trace, entry) && e.Check?
    requires e.todos.Some? ==> !Clashes(e.todos.value)
    ensures Reflects(leq, trace + [e], Step(leq, entry, e))
  {
    var longer := trace + [e];
    assert longer[..|longer| - 1] == trace && longer[|longer| - 1] == e;
    ChecksExtend(trace, e);
    ArmedExtends(trace, e);
    assert |trace| !in StagnantChecks(trace);
    if e.todos.Some? && LastTodos(trace).Some? {
      SnapshotsAreCanonical(leq, e.todos.value, LastTodos(trace).value);
    }
  }

  lemma OtherStepReflects(leq: (string, string) -> bool, trace: seq<Event>, e: Event, entry: Option<TrackerState>)
    requires Reflects(leq, trace, entry) && !e.Check?
    ensures Reflects(leq, trace + [e], Step(leq, entry, e))
  {
    var longer := trace + [e];
    assert longer[..|longer| - 1] == trace && longer[|longer| - 1] == e;
    ChecksExtend(trace, e);
    ArmedExtends(trace, e);
  }

  lemma {:induction false} TraceIsReflected(leq: (string, string) -> bool, trace: seq<Event>)
    requires TotalOrder(leq) && ClashFree(trace)
    ensures Reflects(leq, trace, After(leq, trace))
  {
    if trace == [] {
      assert StagnantChecks(trace) == {};
    } else {
      var before, e := trace[..|trace| - 1], trace[|trace| - 1];
      assert ClashFree(before);
      TraceIsReflected(leq, before);
      if e.Check? {
        CheckReflects(leq, before, e, After(leq, before));
      } else {
        OtherStepReflects(leq, before, e, After(leq, before));
      }
      assert trace == before + [e];
    }
  }

  function StateAfter(leq: (string, string) -> bool, trace: seq<Event>): TrackerState {
    if After(leq, trace).Some? then After(leq, trace).value else INITIAL
  }

  /** After every trace the stagnation count is the number of checks that came after an
      injection and found no progress, since the count last restarted. */
  lemma StagnationIsCounted(leq: (string, string) -> bool, trace: seq<Event>)
    requires TotalOrder(leq) && ClashFree(trace)
    ensures StateAfter(leq, trace).stagnationCount == |StagnantChecks(trace)|
  {
    TraceIsReflected(leq, trace);
  }

  /** A check reports progress exactly when fewer todos are incomplete, or the todos are not
      the same, as at the checks before it. */
  lemma ReportsExactlyProgress(leq: (string, string) -> bool, trace: seq<Event>, incomplete: int,
                               todos: Option<seq<NormalizedTodo>>)
    requires TotalOrder(leq) && ClashFree(trace) && (todos.Some? ==> !Clashes(todos.value))
    ensures Report(StateAfter(leq, trace), incomplete, DigestOf(leq, todos)).hasProgressed
       <==> Progresses(trace, Check(incomplete, todos))
  {
    TraceIsReflected(leq, trace);
    if todos.Some? && LastTodos(trace).Some? {
      SnapshotsAreCanonical(leq, todos.value, LastTodos(trace).value);
    }
  }

  // ---------------------------------------------------------------------------
  // Stagnant sessions
  // ---------------------------------------------------------------------------

  ghost predicate SeenAt(trace: seq<Event>, k: int)
    requires 0 <= k < |trace|
  {
    (trace[k].Check? || trace[k].Inject?) && forall m :: k < m < |trace| ==> !trace[m].Clear?
  }

  /** The session has been checked or prompted since it was last cleared. */
  ghost predicate Seen(trace: seq<Event>) {
    exists k :: 0 <= k < |trace| && SeenAt(trace, k)
  }

  lemma SeenExtends(trace: seq<Event>, e: Event)
    ensures Seen(trace + [e]) <==> e.Check? || e.Inject? || (Seen(trace) && !e.Clear?)
  {
    var longer := trace + [e];
    assert longer[|trace|] == e;
    if e.Check? || e.Inject? {
      assert SeenAt(longer, |trace|);
    } else if Seen(trace) && !e.Clear? {
      var k :| 0 <= k < |trace| && SeenAt(trace, k);
      assert SeenAt(longer, k);
    } else if Seen(longer) {
      var k :| 0 <= k < |longer| && SeenAt(longer, k);
      assert k < |trace| && trace[k] == longer[k];
      assert forall m :: k < m < |trace| ==> longer[m] == trace[m];
      assert SeenAt(trace, k);
    }
  }

  lemma {:induction false} KnownIfSeen(leq: (string, string) -> bool, trace: seq<Event>)
    ensures After(leq, trace).Some? <==> Seen(trace)
  {
    if trace != [] {
      var before, e := trace[..|trace| - 1], trace[|trace| - 1];
      KnownIfSeen(leq, before);
      SeenExtends(before, e);
      assert trace == before + [e];
    }
  }

  /** A session is stagnant if and only if it has been seen since it was last cleared, and that many checks
      stagnated since the count last restarted. */
  lemma StagnantExactly(leq: (string, string) -> bool, trace: seq<Event>, threshold: int)
    requires TotalOrder(leq) && ClashFree(trace)
    ensures Stagnant(After(leq, trace), threshold) <==> Seen(trace) && |StagnantChecks(trace)| >= threshold
  {
    KnownIfSeen(leq, trace);
    StagnationIsCounted(leq, trace);
  }

  /** The events of one session among those of all. */
  function OfSession(calls: seq<(string, Event)>, sessionID: string): seq<Event> {
    if calls == [] then []
    else
      var (id, e) := calls[|calls| - 1];
      OfSession(calls[..|calls| - 1], sessionID) + (if id == sessionID then [e] else [])
  }

  /** All calls, on a new tracker: every session's entry is what its own events lead to. */
  method Run(leq: (string, string) -> bool, calls: seq<(string, Event)>) returns (tracker: ProgressTracker)
    ensures fresh(tracker) && tracker.leq == leq
    ensures forall id :: EntryOf(tracker.sessionStates, id) == After(leq, OfSession(calls, id))
  {
    tracker := new ProgressTracker(leq);
    for i := 0 to |calls|
      invariant forall id :: EntryOf(tracker.sessionStates, id) == After(leq, OfSession(calls[..i], id))
    {
      ghost var earlier := calls[..i];
      assert calls[..i + 1][..i] == earlier;
      tracker.Perform(calls[i].0, calls[i].1);
      assert OfSession(calls[..i + 1], calls[i].0)[..|OfSession(earlier, calls[i].0)|] == OfSession(earlier, calls[i].0);
      assert forall id :: id != calls[i].0 ==> OfSession(calls[..i + 1], id) == OfSession(earlier, id);
    }
    assert calls[..|calls|] == calls;
  }
}
