/** Histories of the circuit breaker: what its state says about the reports that led to it. */
module CircuitRuns {
  import opened Concurrency

  /** What happens to a circuit: a reported result, an acquisition attempt, or a manual reset. */
  datatype Event = Success | Failure(now: int) | Attempt(now: int) | Reset

  function Step(c: Circuit, e: Event): Circuit {
    match e
    case Success => OnSuccess(c)
    case Failure(now) => OnFailure(c, now)
    case Attempt(now) => Probe(c, now)
    case Reset => OnReset(c)
  }

  /** The circuit after the history `h`. */
  function After(h: seq<Event>): Circuit {
    if h == [] then NEW_CIRCUIT else Step(After(h[..|h| - 1]), h[|h| - 1])
  }

  /** The run of failures that ends the history; attempts in between do not interrupt it. */
  function TrailingFailures(h: seq<Event>): nat {
    if h == [] then 0
    else
      match h[|h| - 1]
      case Failure(_) => 1 + TrailingFailures(h[..|h| - 1])
      case Attempt(_) => TrailingFailures(h[..|h| - 1])
      case Success | Reset => 0
  }

  /** The time of the last failure in the history, 0 without one. */
  function LastFailure(h: seq<Event>): int {
    if h == [] then 0
    else if h[|h| - 1].Failure? then h[|h| - 1].now
    else LastFailure(h[..|h| - 1])
  }

  function Successes(h: seq<Event>): nat {
    if h == [] then 0 else Successes(h[..|h| - 1]) + (if h[|h| - 1].Success? then 1 else 0)
  }

  /** The history has an attempt at `i` that found the circuit open and its window elapsed, and
      since then only further attempts and exactly `k` successes. */
  ghost predicate InTrialSince(h: seq<Event>, i: nat, k: nat) {
    && i < |h| && h[i].Attempt?
    && After(h[..i]).state.Open? && h[i].now - LastFailure(h[..i]) > 30_000
    && (forall j :: i < j < |h| ==> h[j].Attempt? || h[j].Success?)
    && Successes(h[i + 1..]) == k
  }

  /** A closed circuit counts exactly the failures since the last success or reset, fewer than five;
      a recorded failure time is the time of the last failure. */
  lemma {:induction false} CountsTrailingFailures(h: seq<Event>)
    ensures After(h).lastFailureTime == LastFailure(h)
    ensures After(h).state.Closed? ==> After(h).failureCount == TrailingFailures(h) < 5
  {
    if h != [] {
      CountsTrailingFailures(h[..|h| - 1]);
    }
  }

  /** A closed circuit opens exactly on the fifth failure in a row. */
  lemma OpensOnFifthFailure(h: seq<Event>, e: Event)
    requires After(h).state.Closed?
    ensures !After(h + [e]).state.Closed? <==> e.Failure? && TrailingFailures(h + [e]) == 5
    ensures !After(h + [e]).state.Closed? ==> After(h + [e]).state.Open?
  {
    assert (h + [e])[..|h|] == h;
    CountsTrailingFailures(h);
  }

  /** A half-open circuit has been in trial since the attempt that half-opened it, with as many
      successes, and no failure or reset, as its counter says. */
  lemma {:induction false} HalfOpenMeansTrial(h: seq<Event>) returns (i: nat)
    requires After(h).state.HalfOpen?
    ensures InTrialSince(h, i, After(h).successCount) && After(h).successCount < 2
  {
    var front, e := h[..|h| - 1], h[|h| - 1];
    if After(front).state.HalfOpen? {
      i := HalfOpenMeansTrial(front);
      assert h[..i] == front[..i];
      var tail := h[i + 1..];
      assert tail[..|tail| - 1] == front[i + 1..] && tail[|tail| - 1] == e;
    } else {
      i := |h| - 1;
      CountsTrailingFailures(front);
      assert h[i + 1..] == [];
    }
  }

  /** The trial is unique: a later start would have found the circuit half-open. */
  lemma {:induction false} TrialMeansHalfOpen(h: seq<Event>, i: nat, k: nat)
    requires InTrialSince(h, i, k) && k < 2
    ensures After(h).state.HalfOpen? && After(h).successCount == k
    decreases |h|
  {
    var front, e := h[..|h| - 1], h[|h| - 1];
    if i == |h| - 1 {
      CountsTrailingFailures(front);
      assert h[i + 1..] == [];
    } else {
      var tail := h[i + 1..];
      assert tail[..|tail| - 1] == front[i + 1..] && tail[|tail| - 1] == e;
      assert front[..i] == h[..i];
      TrialMeansHalfOpen(front, i, if e.Success? then k - 1 else k);
    }
  }

  /** A circuit that is not closed recloses exactly by a reset, or by a success that is the second
      in a trial without a failure. */
  lemma RecloseRule(h: seq<Event>, e: Event)
    requires !After(h).state.Closed?
    ensures After(h + [e]).state.Closed? <==> e.Reset? || (e.Success? && exists i :: InTrialSince(h, i, 1))
  {
    assert (h + [e])[..|h|] == h;
    if After(h).state.HalfOpen? {
      var i := HalfOpenMeansTrial(h);
    }
    if i :| InTrialSince(h, i, 1) {
      TrialMeansHalfOpen(h, i, 1);
    }
  }

  // ---------------------------------------------------------------- the recovery window

  ghost predicate ClockNeverRunsBack(h: seq<Event>) {
    && (forall i :: 0 <= i < |h| && h[i].Failure? ==> 0 <= h[i].now)
    && forall i, j :: 0 <= i < j < |h| && h[i].Failure? && h[j].Failure? ==> h[i].now <= h[j].now
  }

  lemma {:induction false} LastFailureIsLatest(h: seq<Event>, i: nat)
    requires ClockNeverRunsBack(h) && i < |h| && h[i].Failure?
    ensures h[i].now <= LastFailure(h)
  {
    if i < |h| - 1 && !h[|h| - 1].Failure? {
      LastFailureIsLatest(h[..|h| - 1], i);
    }
  }

  /** With a clock that never runs back, an open circuit turns an attempt away exactly when some
      failure was reported during the last 30 seconds. */
  lemma OpenCircuitWaitsOutEveryFailure(h: seq<Event>, now: int)
    requires ClockNeverRunsBack(h) && After(h).state.Open?
    ensures After(h + [Attempt(now)]).state.Open?
       <==> exists i :: 0 <= i < |h| && h[i].Failure? && now - h[i].now <= 30_000
  {
    assert (h + [Attempt(now)])[..|h|] == h;
    CountsTrailingFailures(h);
    forall i | 0 <= i < |h| && h[i].Failure? ensures h[i].now <= LastFailure(h) {
      LastFailureIsLatest(h, i);
    }
    OpenMeansFailed(h);
    var i := LastFailureIndex(h);
  }

  lemma {:induction false} OpenMeansFailed(h: seq<Event>)
    requires !After(h).state.Closed?
    ensures exists i :: 0 <= i < |h| && h[i].Failure?
  {
    var front := h[..|h| - 1];
    if !After(front).state.Closed? {
      OpenMeansFailed(front);
      var i :| 0 <= i < |front| && front[i].Failure?;
      assert h[i].Failure?;
    } else {
      assert h[|h| - 1].Failure?;
    }
  }

  lemma {:induction false} LastFailureIndex(h: seq<Event>) returns (i: nat)
    requires exists i :: 0 <= i < |h| && h[i].Failure?
    ensures i < |h| && h[i].Failure? && h[i].now == LastFailure(h)
  {
    i := |h| - 1;
    if !h[i].Failure? {
      var k :| 0 <= k < |h| && h[k].Failure?;
      assert h[..|h| - 1][k].Failure?;
      i := LastFailureIndex(h[..|h| - 1]);
    }
  }
}
