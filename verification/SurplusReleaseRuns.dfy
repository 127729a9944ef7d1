/** What a release does that no outstanding grant stands behind, as when one slot is given back twice:
    exactly when it is harmless, on a single step and over whole runs. */
module SurplusReleaseRuns {
  import opened Prelude
  import opened Concurrency
  import opened ConcurrencyRuns

  /** As `Possible`, except that anybody may release at any time. */
  ghost predicate LooselyPossible(w: World, events: seq<Event>)
    decreases |events|
  {
    w.key.limit.Finite? &&
    (events == [] ||
     ((Enabled(w, events[0]) || events[0].Release?) && LooselyPossible(Step(w, events[0]), events[1..])))
  }

  ghost predicate IsSurplus(w: World, e: Event) {
    e.Release? && e.id !in w.outstanding
  }

  /** A release that no grant stands behind leaves the slots accounted for exactly when the key has
      neither a waiter nor an active slot; it then does nothing at all. */
  lemma SurplusIsHarmlessExactly(w: World, id: nat)
    requires Invariant(w) && w.key.limit.Finite? && id !in w.outstanding
    ensures var t := Step(w, Release(id));
            && (t.key.count == |t.outstanding| <==> w.key.queue == [] && w.key.count == 0)
            && (t.key.count == |t.outstanding| ==> t == w)
  {
    ReleaseKeepsBooks(w, id);
    if !Busy(w.key) {
      assert w.outstanding - {id} == w.outstanding;
    }
  }

  // ---------------------------------------------------------------- over whole runs

  /** The drift that the events of a run add up to. */
  ghost function TotalDrift(w: World, events: seq<Event>): int
    decreases |events|
  {
    if events == [] then 0 else DriftOf(w, events[0]) + TotalDrift(Step(w, events[0]), events[1..])
  }

  /** In every run, whoever releases what: every release that finds the key busy and owns no grant
      puts the active count one below the outstanding grants, and only a release of a grant that finds
      the key idle makes up for one. */
  lemma {:induction false} DriftIsExact(w: World, events: seq<Event>)
    requires Bookkept(w) && LooselyPossible(w, events) && Drift(w) >= 0
    ensures var t := After(w, events);
            Bookkept(t) && Drift(t) == Drift(w) + TotalDrift(w, events) >= 0
    decreases |events|
  {
    if events != [] {
      var e := events[0];
      StepKeepsBooks(w, e);
      if e.Release? && e.id in w.outstanding {
        assert |w.outstanding| > 0;
      }
      DriftIsExact(Step(w, e), events[1..]);
    }
  }

  ghost predicate Accounted(w: World) {
    w.key.count == |w.outstanding|
  }

  /** At every moment of the run the active count is the number of outstanding grants. */
  ghost predicate AlwaysAccounted(w: World, events: seq<Event>)
    decreases |events|
  {
    Accounted(w) && (events == [] || AlwaysAccounted(Step(w, events[0]), events[1..]))
  }

  /** Every surplus release of the run finds the key without a waiter and without an active slot. */
  ghost predicate SurplusOnlyWhenIdle(w: World, events: seq<Event>)
    decreases |events|
  {
    events == [] ||
    ((IsSurplus(w, events[0]) ==> !Busy(w.key)) && SurplusOnlyWhenIdle(Step(w, events[0]), events[1..]))
  }

  lemma {:induction false} AccountedExactly(w: World, events: seq<Event>)
    requires Invariant(w) && LooselyPossible(w, events)
    ensures AlwaysAccounted(w, events) <==> SurplusOnlyWhenIdle(w, events)
    decreases |events|
  {
    if events != [] {
      var e := events[0];
      if IsSurplus(w, e) {
        SurplusIsHarmlessExactly(w, e.id);
        if !Busy(w.key) {
          AccountedExactly(w, events[1..]);
        } else {
          assert !Accounted(Step(w, e));
        }
      } else {
        StepKeepsInvariant(w, e);
        AccountedExactly(Step(w, e), events[1..]);
      }
    }
  }

  /** The slots are accounted for throughout a run if and only if no surplus release ever finds a
      waiter or an active slot. */
  lemma SlotsAreAccountedForExactly(limit: int, events: seq<Event>)
    ensures LooselyPossible(Start(limit), events)
        ==> (AlwaysAccounted(Start(limit), events) <==> SurplusOnlyWhenIdle(Start(limit), events))
  {
    if LooselyPossible(Start(limit), events) {
      AccountedExactly(Start(limit), events);
    }
  }

  // ---------------------------------------------------------------- a run that over-commits

  lemma Unfolds(w: World, e: Event, rest: seq<Event>)
    ensures After(w, [e] + rest) == After(Step(w, e), rest)
    ensures LooselyPossible(w, [e] + rest)
       <==> w.key.limit.Finite? && (Enabled(w, e) || e.Release?) && LooselyPossible(Step(w, e), rest)
  {
    assert ([e] + rest)[1..] == rest;
  }

  lemma {:induction false} Splits(w: World, a: seq<Event>, b: seq<Event>)
    requires LooselyPossible(w, a)
    ensures After(w, a + b) == After(After(w, a), b)
    ensures LooselyPossible(w, a + b) <==> LooselyPossible(After(w, a), b)
    decreases |a|
  {
    if a == [] {
      assert a + b == b;
    } else {
      assert a + b == [a[0]] + (a[1..] + b);
      Unfolds(w, a[0], a[1..] + b);
      Splits(Step(w, a[0]), a[1..], b);
    }
  }

  const NEWCOMER := Acquire(TaskPriority.Normal, 0, false)

  ghost function Newcomers(n: nat): seq<Event> {
    if n == 0 then [] else Newcomers(n - 1) + [NEWCOMER]
  }

  /** A fresh key after `n` grants. */
  ghost predicate Filled(w: World, limit: nat, n: nat) {
    && w.key == KeyState(n, [], Finite(limit), 0, 0, NEW_CIRCUIT)
    && Bookkept(w) && Drift(w) == 0 && w.arrivals == n && (n > 0 ==> 0 in w.outstanding)
  }

  lemma {:induction false} FillsUp(limit: nat, n: nat)
    requires n <= limit
    ensures LooselyPossible(Start(limit), Newcomers(n)) && Filled(After(Start(limit), Newcomers(n)), limit, n)
  {
    if n > 0 {
      FillsUp(limit, n - 1);
      var w := After(Start(limit), Newcomers(n - 1));
      Splits(Start(limit), Newcomers(n - 1), [NEWCOMER]);
      Unfolds(w, NEWCOMER, []);
      assert [NEWCOMER] + [] == [NEWCOMER];
      StepKeepsBooks(w, NEWCOMER);
    }
  }

  /** The first grant is released, a newcomer takes its slot, the first grant is released again, and
      another newcomer is let in. */
  function Twice(): seq<Event> {
    [Release(0)] + ([NEWCOMER] + ([Release(0)] + ([NEWCOMER] + [])))
  }

  lemma TwiceOverCommits(w: World, limit: nat)
    requires 1 <= limit && Filled(w, limit, limit)
    ensures LooselyPossible(w, Twice())
    ensures var t := After(w, Twice()); t.key == w.key && |t.outstanding| == limit + 1
  {
    var a := Step(w, Release(0));
    var b := Step(a, NEWCOMER);
    var c := Step(b, Release(0));
    var d := Step(c, NEWCOMER);
    ReleaseKeepsBooks(w, 0);
    StepKeepsBooks(a, NEWCOMER);
    ReleaseKeepsBooks(b, 0);
    StepKeepsBooks(c, NEWCOMER);
    Unfolds(w, Release(0), [NEWCOMER] + ([Release(0)] + ([NEWCOMER] + [])));
    Unfolds(a, NEWCOMER, [Release(0)] + ([NEWCOMER] + []));
    Unfolds(b, Release(0), [NEWCOMER] + []);
    Unfolds(c, NEWCOMER, []);
  }

  /** From a fresh key with any finite limit of at least 1, releasing one grant twice ends with one
      grant more outstanding than the limit allows. */
  lemma DoubleReleaseOverCommits(limit: nat)
    requires 1 <= limit
    ensures var w := After(Start(limit), Newcomers(limit) + Twice());
      && LooselyPossible(Start(limit), Newcomers(limit) + Twice())
      && w.key.limit == Finite(limit) && w.key.count == limit && |w.outstanding| == limit + 1
  {
    FillsUp(limit, limit);
    Splits(Start(limit), Newcomers(limit), Twice());
    TwiceOverCommits(After(Start(limit), Newcomers(limit)), limit);
  }

  /** With a limit of at most 0 nothing is ever granted, until a release without a grant admits the
      first waiter. */
  lemma ClosedKeyOverCommits(limit: int)
    requires limit <= 0
    ensures var events := [NEWCOMER] + ([Release(0)] + []);
            var w := After(Start(limit), events);
            LooselyPossible(Start(limit), events) && w.outstanding == {0} && w.key.count == 0
  {
    var w := Start(limit);
    var a := Step(w, NEWCOMER);
    assert a.key.queue == [Waiter(0, TaskPriority.Normal)];
    Unfolds(w, NEWCOMER, [Release(0)] + []);
    Unfolds(a, Release(0), []);
  }
}
