/** What a worker takes and where submitted work goes, on every queue state that a run can reach. */
module WorkerDispatch {
  import opened Prelude
  import opened WorkStealingDeque
  import opened WorkerPool
  import opened WorkerPoolRuns

  /** The worker `i` places on from `start`, counting around. */
  function Around(n: nat, start: nat, i: nat): nat
    requires 0 < n
  {
    (start + i) % n
  }

  ghost predicate HasNothing<T>(queues: seq<seq<T>>, w: nat, v: nat) {
    v == w || v >= |queues| || queues[v] == []
  }

  /** Scanning from `start`, worker `v` is the first other one than `w` that has work. */
  ghost predicate FirstOther<T>(queues: seq<seq<T>>, w: nat, start: nat, v: nat) {
    && v < |queues| && v != w && queues[v] != []
    && exists i :: 0 <= i < |queues| && Around(|queues|, start, i) == v
         && forall j :: 0 <= j < i ==> HasNothing(queues, w, Around(|queues|, start, j))
  }

  /** What a live worker does next: it takes the last item of its own queue, not stolen; if that is empty, the first
      item of the first other queue that has one, stolen; and it waits if and only if all queues are empty. No
      other queue changes. */
  lemma WorkerTakesExactly<T>(queues: seq<seq<WorkItem<T>>>, w: nat, start: nat)
    requires w < |queues| && start < |queues|
    ensures var (phase, after) := Head(queues, true, w, start);
      if queues[w] != [] then
        var own := queues[w];
        phase == Executing(own[|own| - 1], false) && after == queues[w := own[..|own| - 1]]
      else if exists v :: 0 <= v < |queues| && queues[v] != [] then
        exists v: nat :: FirstOther(queues, w, start, v)
          && phase == Executing(queues[v][0], true) && after == queues[v := queues[v][1..]]
      else phase == Waiting && after == queues
  {
    if queues[w] == [] {
      NoVictimMeansNoWork(queues, w, start);
      var at := VictimIsNearest(queues, w, start, 0);
      if at < |queues| {
        var v := Scan(|queues|, start, at);
        assert forall j :: 0 <= j < at ==> Idle(queues, w, Scan(|queues|, start, j));
        FirstFound(queues, w, start, at);
        assert FirstOther(queues, w, start, v);
      }
    }
  }

  lemma FirstFound<T>(queues: seq<seq<T>>, w: nat, start: nat, at: nat)
    requires w < |queues| && start < |queues| && at < |queues|
    requires forall j :: 0 <= j < at ==> Idle(queues, w, Scan(|queues|, start, j))
    requires !Idle(queues, w, Scan(|queues|, start, at))
    ensures FirstOther(queues, w, start, Around(|queues|, start, at))
  {
    forall j | 0 <= j < at ensures HasNothing(queues, w, Around(|queues|, start, j)) {
      assert Idle(queues, w, Scan(|queues|, start, j));
    }
  }

  /** In every state of an interleaving, a loop that resumes while the pool runs and its worker is live does that, and any other
      loop that resumes ends. */
  lemma ResumedLoopTakes<T>(s: System<T>, k: nat, start: nat)
    requires WellFormed(s) && Enabled(s, Resume(k, start))
    ensures var t := Next(s, Resume(k, start));
            var w := s.loops[k].worker;
      if !s.running || !s.live[w] then t.loops[k].phase == Exited && t.queues == s.queues
      else if s.queues[w] != [] then
        var own := s.queues[w];
        t.loops[k].phase == Executing(own[|own| - 1], false) && t.queues == s.queues[w := own[..|own| - 1]]
      else if exists v :: 0 <= v < |s.queues| && s.queues[v] != [] then
        exists v: nat :: FirstOther(s.queues, w, start, v)
          && t.loops[k].phase == Executing(s.queues[v][0], true) && t.queues == s.queues[v := s.queues[v][1..]]
      else t.loops[k].phase == Waiting && t.queues == s.queues
  {
    WorkerTakesExactly(s.queues, s.loops[k].worker, start);
  }

  /** Where submitted work goes: to the end of the named worker's queue, or of the first shortest one if none is
      named; an unknown worker is refused, and so is everything if there are no workers. */
  lemma SubmittedGoes<T>(queues: seq<seq<T>>, target: Option<int>, item: T)
    ensures var w := Target(queues, target);
      && (w.None? <==> if target.Some? then !(0 <= target.value < |queues|) else |queues| == 0)
      && (w.None? ==> Submitted(queues, w, item) == queues)
      && (w.Some? ==>
            && w.value < |queues|
            && Submitted(queues, w, item) == queues[w.value := queues[w.value] + [item]]
            && (target.Some? ==> w.value == target.value)
            && (target.None? ==>
                  && (forall v :: 0 <= v < |queues| ==> |queues[w.value]| <= |queues[v]|)
                  && (forall v :: 0 <= v < w.value ==> |queues[w.value]| < |queues[v]|)))
  {
  }
}
