/** The concurrency controller of src/core/agents/concurrency.ts and its one-shot token of
    src/core/agents/concurrency-token.ts. Time, memory pressure and the firing of timers are inputs.

    `KeyState` is everything the controller knows about one key; each operation is a function on it,
    and the class below is proved to apply that function to its key and to leave all others alone. */
module Concurrency {
  import opened Prelude

  /** A JavaScript number used as a limit. */
  datatype Limit = Finite(n: int) | Infinity

  datatype CircuitState = Closed | Open | HalfOpen

  datatype Circuit = Circuit(state: CircuitState, failureCount: nat, lastFailureTime: int, successCount: nat)

  /** A queued acquisition; `id` is its arrival number and stands for its promise and its timer. */
  datatype Waiter = Waiter(id: nat, priority: TaskPriority)

  datatype KeyState = KeyState(
    count: nat, queue: seq<Waiter>, limit: Limit, streak: nat, failures: nat, circuit: Circuit)

  datatype Admission = Granted | Queued | RejectedByCircuit | RejectedByPressure

  const CIRCUIT_THRESHOLD := 5
  const CIRCUIT_TIMEOUT := 30_000
  const HALF_OPEN_SUCCESS := 2
  const DEFAULT_CONCURRENCY := 10
  const MAX_CONCURRENCY := 50
  const NEW_CIRCUIT := Circuit(Closed, 0, 0, 0)

  // ---------------------------------------------------------------- limits

  datatype Config = Config(
    defaultConcurrency: Option<int>, agentConcurrency: map<string, int>,
    providerConcurrency: map<string, int>, modelConcurrency: map<string, int>)

  /** `key.split("/")[0]`. */
  function Provider(key: string): string {
    if key == "" || key[0] == '/' then "" else [key[0]] + Provider(key[1..])
  }

  /** A stored limit of 0 means unlimited. */
  function Effective(limit: Limit): Limit {
    if limit == Finite(0) then Infinity else limit
  }

  /** Without an explicit limit; the default, unlike the other levels, is taken as it is. */
  function ConfiguredLimit(config: Config, key: string): Limit {
    if key in config.modelConcurrency then Effective(Finite(config.modelConcurrency[key]))
    else if Provider(key) in config.providerConcurrency then Effective(Finite(config.providerConcurrency[Provider(key)]))
    else if key in config.agentConcurrency then Effective(Finite(config.agentConcurrency[key]))
    else Finite(if config.defaultConcurrency.Some? then config.defaultConcurrency.value else DEFAULT_CONCURRENCY)
  }

  // ---------------------------------------------------------------- the circuit breaker

  /** `isCircuitOpen`: may move an open circuit to half-open. */
  function Probe(c: Circuit, now: int): Circuit {
    if c.state.Open? && now - c.lastFailureTime > CIRCUIT_TIMEOUT
    then c.(state := HalfOpen, successCount := 0) else c
  }

  function OnSuccess(c: Circuit): Circuit {
    if c.state.HalfOpen? then
      if c.successCount + 1 >= HALF_OPEN_SUCCESS
      then c.(state := Closed, failureCount := 0, successCount := 0)
      else c.(successCount := c.successCount + 1)
    else c.(failureCount := 0)
  }

  function OnFailure(c: Circuit, now: int): Circuit {
    var d := c.(failureCount := c.failureCount + 1, lastFailureTime := now);
    if c.state.HalfOpen? then d.(state := Open, successCount := 0)
    else if d.failureCount >= CIRCUIT_THRESHOLD then d.(state := Open)
    else d
  }

  function OnReset(c: Circuit): Circuit {
    c.(state := Closed, failureCount := 0, successCount := 0)
  }

  // ---------------------------------------------------------------- operations on one key

  /** `findIndex(q => q.priority > priority)`, or the end of the queue. */
  function InsertIndex(queue: seq<Waiter>, priority: TaskPriority): (i: nat)
    ensures i <= |queue|
  {
    if queue == [] || queue[0].priority.Rank() > priority.Rank() then 0
    else 1 + InsertIndex(queue[1..], priority)
  }

  function Enqueue(queue: seq<Waiter>, w: Waiter): seq<Waiter> {
    var i := InsertIndex(queue, w.priority);
    queue[..i] + [w] + queue[i..]
  }

  function Remove(queue: seq<Waiter>, id: nat): seq<Waiter> {
    if queue == [] then []
    else if queue[0].id == id then queue[1..]
    else [queue[0]] + Remove(queue[1..], id)
  }

  function AcquireOn(k: KeyState, w: Waiter, now: int, pressure: bool): (Admission, KeyState) {
    var k := k.(circuit := Probe(k.circuit, now));
    if k.circuit.state.Open? then (RejectedByCircuit, k)
    else if pressure && w.priority.Low? then (RejectedByPressure, k)
    else if k.limit.Infinity? then (Granted, k)
    else if k.count < k.limit.n then (Granted, k.(count := k.count + 1))
    else (Queued, k.(queue := Enqueue(k.queue, w)))
  }

  /** Also returns the waiter whose promise is resolved, if any. */
  function ReleaseOn(k: KeyState): (Option<Waiter>, KeyState) {
    if k.limit.Infinity? then (None, k)
    else if k.queue != [] then (Some(k.queue[0]), k.(queue := k.queue[1..]))
    else (None, k.(count := if k.count > 0 then k.count - 1 else k.count))
  }

  function TimeOutOn(k: KeyState, id: nat): KeyState {
    k.(queue := Remove(k.queue, id))
  }

  function LimitOn(k: KeyState, limit: Limit): KeyState {
    k.(limit := Effective(limit))
  }

  function ScaleUp(k: KeyState): KeyState {
    if k.streak >= 3 && k.limit.Finite? && k.limit.n < MAX_CONCURRENCY
    then LimitOn(k, Finite(k.limit.n + 1)).(streak := 0) else k
  }

  function ScaleDown(k: KeyState): KeyState {
    if k.failures >= 2 && (k.limit.Infinity? || k.limit.n > 1)
    then LimitOn(k, if k.limit.Infinity? then Infinity else Finite(k.limit.n - 1)).(failures := 0) else k
  }

  function SuccessOn(k: KeyState): KeyState {
    ScaleUp(k.(circuit := OnSuccess(k.circuit), streak := k.streak + 1, failures := 0))
  }

  function FailureOn(k: KeyState, now: int): KeyState {
    ScaleDown(k.(circuit := OnFailure(k.circuit, now), failures := k.failures + 1, streak := 0))
  }

  function ReportOn(k: KeyState, success: bool, now: int): KeyState {
    if success then SuccessOn(k) else FailureOn(k, now)
  }

  // ---------------------------------------------------------------- the controller

  class ConcurrencyController {
    const config: Config
    var counts: map<string, nat>
    var queues: map<string, seq<Waiter>>
    var limits: map<string, Limit>
    var successStreak: map<string, nat>
    var failureCount: map<string, nat>
    var circuits: map<string, Circuit>

    ghost function Key(key: string): KeyState
      reads this
    {
      KeyState(if key in counts then counts[key] else 0,
               if key in queues then queues[key] else [],
               GetConcurrencyLimit(key),
               if key in successStreak then successStreak[key] else 0,
               if key in failureCount then failureCount[key] else 0,
               if key in circuits then circuits[key] else NEW_CIRCUIT)
    }

    /** Only `key` has changed, and it is now `k`. */
    twostate predicate Becomes(key: string, k: KeyState)
      reads this
    {
      Key(key) == k && forall other :: other != key ==> Key(other) == old(Key(other))
    }

    constructor (config: Config)
      ensures forall key :: Key(key) == KeyState(0, [], ConfiguredLimit(config, key), 0, 0, NEW_CIRCUIT)
    {
      this.config := config;
      counts, queues, limits, successStreak, failureCount, circuits := map[], map[], map[], map[], map[], map[];
    }

    function GetConcurrencyLimit(key: string): Limit
      reads this
    {
      if key in limits then Effective(limits[key]) else ConfiguredLimit(config, key)
    }

    method SetLimit(key: string, limit: Limit)
      modifies this
      ensures Becomes(key, LimitOn(old(Key(key)), limit))
    {
      limits := limits[key := limit];
    }

    method IsCircuitOpen(key: string, now: int) returns (open: bool)
      modifies this`circuits
      ensures var c := Probe(old(Key(key)).circuit, now);
              open == c.state.Open? && Becomes(key, old(Key(key)).(circuit := c))
    {
      var circuit := if key in circuits then circuits[key] else NEW_CIRCUIT;
      if circuit.state.Open? && now - circuit.lastFailureTime > CIRCUIT_TIMEOUT {
        circuit := circuit.(state := HalfOpen, successCount := 0);
      }
      circuits := circuits[key := circuit];
      open := circuit.state.Open?;
    }

    method Acquire(key: string, id: nat, priority: TaskPriority, now: int, pressure: bool) returns (r: Admission)
      modifies this
      ensures var (admission, k) := AcquireOn(old(Key(key)), Waiter(id, priority), now, pressure);
              r == admission && Becomes(key, k)
    {
      var open := IsCircuitOpen(key, now);
      if open {
        return RejectedByCircuit;
      }
      if pressure && priority.Low? {
        return RejectedByPressure;
      }
      var limit := GetConcurrencyLimit(key);
      if limit.Infinity? {
        return Granted;
      }
      var current := if key in counts then counts[key] else 0;
      if current < limit.n {
        counts := counts[key := current + 1];
        return Granted;
      }
      var queue := if key in queues then queues[key] else [];
      queues := queues[key := Enqueue(queue, Waiter(id, priority))];
      r := Queued;
    }

    method Release(key: string) returns (next: Option<Waiter>)
      modifies this
      ensures var (granted, k) := ReleaseOn(old(Key(key)));
              next == granted && Becomes(key, k)
    {
      next := None;
      if GetConcurrencyLimit(key).Infinity? {
        return;
      }
      if key in queues && queues[key] != [] {
        next := Some(queues[key][0]);
        queues := queues[key := queues[key][1..]];
      } else {
        var current := if key in counts then counts[key] else 0;
        if current > 0 {
          counts := counts[key := current - 1];
        }
      }
    }

    method RemoveFromQueue(key: string, id: nat)
      modifies this
      ensures Becomes(key, TimeOutOn(old(Key(key)), id))
    {
      if key in queues {
        queues := queues[key := Remove(queues[key], id)];
      }
    }

    method ReportResult(key: string, success: bool, now: int)
      modifies this
      ensures Becomes(key, ReportOn(old(Key(key)), success, now))
    {
      if success {
        HandleSuccess(key);
      } else {
        HandleFailure(key, now);
      }
    }

    method HandleSuccess(key: string)
      modifies this
      ensures Becomes(key, SuccessOn(old(Key(key))))
    {
      var circuit := if key in circuits then circuits[key] else NEW_CIRCUIT;
      circuits := circuits[key := OnSuccess(circuit)];
      var streak := (if key in successStreak then successStreak[key] else 0) + 1;
      successStreak := successStreak[key := streak];
      failureCount := failureCount[key := 0];
      AutoScaleUp(key, streak);
    }

    method AutoScaleUp(key: string, streak: nat)
      requires streak == Key(key).streak
      modifies this`limits, this`successStreak
      ensures Becomes(key, ScaleUp(old(Key(key))))
    {
      if streak >= 3 {
        var currentLimit := GetConcurrencyLimit(key);
        if currentLimit.Finite? && currentLimit.n < MAX_CONCURRENCY {
          limits := limits[key := Finite(currentLimit.n + 1)];
          successStreak := successStreak[key := 0];
        }
      }
    }

    method HandleFailure(key: string, now: int)
      modifies this
      ensures Becomes(key, FailureOn(old(Key(key)), now))
    {
      var circuit := if key in circuits then circuits[key] else NEW_CIRCUIT;
      circuits := circuits[key := OnFailure(circuit, now)];
      var failures := (if key in failureCount then failureCount[key] else 0) + 1;
      failureCount := failureCount[key := failures];
      successStreak := successStreak[key := 0];
      AutoScaleDown(key, failures);
    }

    method AutoScaleDown(key: string, failures: nat)
      requires failures == Key(key).failures
      modifies this`limits, this`failureCount
      ensures Becomes(key, ScaleDown(old(Key(key))))
    {
      if failures >= 2 {
        var currentLimit := GetConcurrencyLimit(key);
        if currentLimit.Infinity? || currentLimit.n > 1 {
          limits := limits[key := if currentLimit.Infinity? then Infinity else Finite(currentLimit.n - 1)];
          failureCount := failureCount[key := 0];
        }
      }
    }

    method ResetCircuit(key: string)
      modifies this
      ensures Becomes(key, old(Key(key)).(circuit := OnReset(old(Key(key)).circuit)))
    {
      var circuit := if key in circuits then circuits[key] else NEW_CIRCUIT;
      circuits := circuits[key := OnReset(circuit)];
    }
  }

  // ---------------------------------------------------------------- the token

  class ConcurrencyToken {
    const controller: ConcurrencyController
    const key: string
    var released: bool
    var timerSet: bool

    constructor (controller: ConcurrencyController, key: string)
      ensures this.controller == controller && this.key == key && !released && timerSet
    {
      this.controller, this.key, released, timerSet := controller, key, false, true;
    }

    /** However often it is called, by hand or by the timer, only the first call gives the slot back. */
    method Release() returns (next: Option<Waiter>)
      modifies this, controller
      ensures released && (old(released) ==> timerSet == old(timerSet)) && (!old(released) ==> !timerSet)
      ensures old(released) ==> next == None && unchanged(controller)
      ensures !old(released) ==>
                var (granted, k) := ReleaseOn(old(controller.Key(key)));
                next == granted && controller.Becomes(key, k)
    {
      if released {
        return None;
      }
      released := true;
      timerSet := false;
      next := controller.Release(key);
    }

    /** The callback of the auto-release timer. */
    method TimerFires() returns (next: Option<Waiter>)
      modifies this, controller
      ensures released
      ensures old(released) ==> next == None && unchanged(controller)
      ensures !old(released) ==>
                var (granted, k) := ReleaseOn(old(controller.Key(key)));
                next == granted && controller.Becomes(key, k)
    {
      next := None;
      if !released {
        next := Release();
      }
    }
  }
}
