/** The growing circular buffer and the work-stealing deque of
    src/core/queue/work-stealing-deque.ts, proved to refine a plain sequence. */
module WorkStealingDeque {
  import opened Prelude

  datatype WorkItem<T> = WorkItem(task: T, priority: TaskPriority, enqueuedAt: int)

  // ---------------------------------------------------------------- slots

  /** The circular buffer `slots` holds `contents` in order, starting at the running index `top`. */
  ghost predicate Represents<T>(slots: seq<Option<T>>, top: nat, contents: seq<T>) {
    && 0 < |slots|
    && |contents| <= |slots|
    && forall k :: 0 <= k < |contents| ==> slots[(top + k) % |slots|] == Some(contents[k])
  }

  /** Indices of a window no longer than the buffer never share a slot. */
  lemma WindowSlotsAreDistinct(i: nat, j: nat, capacity: nat)
    requires i < j < i + capacity
    ensures i % capacity != j % capacity
  {
    var qi, qj := i / capacity, j / capacity;
    assert i == qi * capacity + i % capacity && j == qj * capacity + j % capacity;
    MultipleOfCapacity(qj - qi, capacity);
    assert j - i == (qj - qi) * capacity + (j % capacity - i % capacity);
  }

  lemma MultipleOfCapacity(q: int, capacity: nat)
    requires 0 < capacity
    ensures q <= 0 ==> q * capacity <= 0
    ensures 1 <= q ==> capacity <= q * capacity
  {
  }

  /** Writing at the running index after the last item appends. */
  lemma PutAppends<T>(slots: seq<Option<T>>, top: nat, contents: seq<T>, x: T)
    requires Represents(slots, top, contents) && |contents| < |slots|
    ensures Represents(slots[(top + |contents|) % |slots| := Some(x)], top, contents + [x])
  {
    var written := slots[(top + |contents|) % |slots| := Some(x)];
    forall k | 0 <= k < |contents|
      ensures written[(top + k) % |slots|] == Some(contents[k])
    {
      WindowSlotsAreDistinct(top + k, top + |contents|, |slots|);
    }
  }

  class CircularArray<T> {
    const items: array<Option<T>>
    const capacity: nat

    ghost predicate Valid() {
      items.Length == capacity && 0 < capacity
    }

    constructor (initialCapacity: nat)
      requires 0 < initialCapacity
      ensures Valid() && fresh(items) && capacity == initialCapacity
    {
      capacity := initialCapacity;
      items := new Option<T>[initialCapacity](_ => None);
    }

    function Get(index: nat): (item: Option<T>)
      requires Valid()
      reads items
    {
      items[index % capacity]
    }

    method Put(index: nat, item: T)
      requires Valid()
      modifies items
      ensures items[..] == old(items[..])[index % capacity := Some(item)]
    {
      items[index % capacity] := Some(item);
    }

    /** Doubling re-indexes the live window under the new modulus and keeps every item in place. */
    method Grow(bottom: nat, top: nat, ghost contents: seq<T>) returns (grown: CircularArray<T>)
      requires Valid() && bottom == top + |contents| && Represents(items[..], top, contents)
      ensures fresh(grown) && fresh(grown.items) && grown.Valid() && grown.capacity == 2 * capacity
      ensures Represents(grown.items[..], top, contents)
    {
      grown := new CircularArray(capacity * 2);
      for i := top to bottom
        invariant Represents(grown.items[..], top, contents[..i - top])
        invariant items[..] == old(items[..])
      {
        var item := Get(i);
        assert item == Some(contents[i - top]);
        PutAppends(grown.items[..], top, contents[..i - top], contents[i - top]);
        grown.Put(i, item.value);
        assert contents[..i + 1 - top] == contents[..i - top] + [contents[i - top]];
      }
      assert contents[..bottom - top] == contents;
    }
  }

  // ---------------------------------------------------------------- deque

  class WorkStealingDeque<T> {
    var top: int
    var bottom: int
    var buffer: CircularArray<WorkItem<T>>
    ghost var contents: seq<WorkItem<T>>

    ghost function Repr(): set<object>
      reads this
    {
      {this, buffer, buffer.items}
    }

    ghost predicate Valid()
      reads this, buffer.items
    {
      && buffer.Valid()
      && 0 <= top <= bottom
      && bottom - top == |contents| < buffer.capacity
      && Represents(buffer.items[..], top, contents)
    }

    constructor (initialCapacity: nat)
      requires 0 < initialCapacity
      ensures Valid() && contents == [] && fresh(Repr())
    {
      top, bottom, contents := 0, 0, [];
      buffer := new CircularArray(initialCapacity);
    }

    method Push(item: WorkItem<T>)
      requires Valid()
      modifies Repr()
      ensures Valid() && (buffer == old(buffer) || (fresh(buffer) && fresh(buffer.items)))
      ensures contents == old(contents) + [item]
    {
      var b, t, a := bottom, top, buffer;
      var size := b - t;
      if size >= a.capacity - 1 {
        a := a.Grow(b, t, contents);
        buffer := a;
      }
      PutAppends(a.items[..], t, contents, item);
      a.Put(b, item);
      bottom := b + 1;
      contents := contents + [item];
    }

    method Pop() returns (popped: Option<WorkItem<T>>)
      requires Valid()
      modifies this
      ensures Valid() && Repr() == old(Repr())
      ensures old(contents) == [] ==> popped == None && contents == []
      ensures old(contents) != [] ==>
                var last := |old(contents)| - 1;
                popped == Some(old(contents)[last]) && contents == old(contents)[..last]
    {
      var b := bottom - 1;
      bottom := b;
      var t := top;
      var size := b - t;
      if size < 0 {
        bottom := t;
        return None;
      }
      popped := buffer.Get(b);
      contents := contents[..|contents| - 1];
      if size == 0 {
        var oldTop := t;
        top := t + 1;
        if oldTop != top - 1 {
          assert false; // "lost race to thief": nothing runs between the two reads of `top`
        }
        bottom := t + 1;
      }
    }

    method Steal() returns (stolen: Option<WorkItem<T>>)
      requires Valid()
      modifies this
      ensures Valid() && Repr() == old(Repr())
      ensures old(contents) == [] ==> stolen == None && contents == []
      ensures old(contents) != [] ==>
                stolen == Some(old(contents)[0]) && contents == old(contents)[1..]
    {
      var t, b := top, bottom;
      var size := b - t;
      if size <= 0 {
        return None;
      }
      stolen := buffer.Get(t);
      ghost var before := contents;
      contents := contents[1..];
      var oldTop := t;
      top := t + 1;
      forall k | 0 <= k < |contents|
        ensures buffer.items[..][(top + k) % buffer.capacity] == Some(contents[k])
      {
        assert top + k == t + (k + 1) && contents[k] == before[k + 1];
      }
      if oldTop != top - 1 {
        assert false; // "lost race": as above
      }
    }

    /** Any operation does to `contents` what it does to a plain sequence. */
    method Perform(op: Op<T>) returns (out: Option<WorkItem<T>>)
      requires Valid()
      modifies Repr()
      ensures Valid() && fresh(Repr() - old(Repr()))
      ensures out == Out(old(contents), op) && contents == After(old(contents), op)
    {
      out := None;
      match op
      case Push(x) => Push(x);
      case Pop => out := Pop();
      case Steal => out := Steal();
    }

    function Size(): (n: nat)
      requires Valid()
      reads this, buffer.items
      ensures n == |contents|
    {
      Max(0, bottom - top)
    }
  }

  // ---------------------------------------------------------------- runs

  datatype Op<T> = Push(item: WorkItem<T>) | Pop | Steal

  /** What an operation leaves of a sequence that it is applied to ... */
  function After<T>(c: seq<WorkItem<T>>, op: Op<T>): seq<WorkItem<T>> {
    match op
    case Push(x) => c + [x]
    case Pop => if c == [] then [] else c[..|c| - 1]
    case Steal => if c == [] then [] else c[1..]
  }

  /** ... and what it hands out. */
  function Out<T>(c: seq<WorkItem<T>>, op: Op<T>): Option<WorkItem<T>> {
    match op
    case Push(_) => None
    case Pop => if c == [] then None else Some(c[|c| - 1])
    case Steal => if c == [] then None else Some(c[0])
  }

  function Outputs<T>(c: seq<WorkItem<T>>, ops: seq<Op<T>>): seq<Option<WorkItem<T>>>
    decreases |ops|
  {
    if ops == [] then [] else [Out(c, ops[0])] + Outputs(After(c, ops[0]), ops[1..])
  }

  function Final<T>(c: seq<WorkItem<T>>, ops: seq<Op<T>>): seq<WorkItem<T>>
    decreases |ops|
  {
    if ops == [] then c else Final(After(c, ops[0]), ops[1..])
  }

  function Pushed<T>(ops: seq<Op<T>>): seq<WorkItem<T>> {
    if ops == [] then []
    else PushedBy(ops[0]) + Pushed(ops[1..])
  }

  function PushedBy<T>(op: Op<T>): seq<WorkItem<T>> {
    if op.Push? then [op.item] else []
  }

  /** The items handed out, in the order in which they are handed out. */
  function Taken<T>(outs: seq<Option<WorkItem<T>>>): seq<WorkItem<T>> {
    if outs == [] then []
    else Items(outs[0]) + Taken(outs[1..])
  }

  /** Any run, on a deque of any initial capacity, behaves as the same run on a sequence. */
  method Run<T>(initialCapacity: nat, ops: seq<Op<T>>) returns (outs: seq<Option<WorkItem<T>>>)
    requires 0 < initialCapacity
    ensures outs == Outputs([], ops)
  {
    var deque := new WorkStealingDeque<T>(initialCapacity);
    outs := [];
    for i := 0 to |ops|
      invariant fresh(deque.Repr()) && deque.Valid()
      invariant Outputs([], ops) == outs + Outputs(deque.contents, ops[i..])
    {
      NextOutput(outs, deque.contents, ops, i);
      var out := deque.Perform(ops[i]);
      outs := outs + [out];
    }
    assert Outputs(deque.contents, ops[|ops|..]) == [];
  }

  lemma NextOutput<T>(outs: seq<Option<WorkItem<T>>>, c: seq<WorkItem<T>>, ops: seq<Op<T>>, i: nat)
    requires i < |ops|
    ensures outs + Outputs(c, ops[i..]) == (outs + [Out(c, ops[i])]) + Outputs(After(c, ops[i]), ops[i + 1..])
  {
    assert ops[i..][0] == ops[i] && ops[i..][1..] == ops[i + 1..];
  }

  /** The items of an optional value, as a sequence. */
  function Items<T>(o: Option<WorkItem<T>>): seq<WorkItem<T>> {
    if o.Some? then [o.value] else []
  }

  lemma StepConserves<T>(c: seq<WorkItem<T>>, op: Op<T>)
    ensures multiset(c) + multiset(PushedBy(op))
         == multiset(Items(Out(c, op))) + multiset(After(c, op))
  {
    if c != [] {
      Ends(c);
    }
  }

  lemma Ends<T>(c: seq<T>)
    requires c != []
    ensures multiset(c) == multiset([c[|c| - 1]]) + multiset(c[..|c| - 1])
    ensures multiset(c) == multiset([c[0]]) + multiset(c[1..])
  {
    assert c == c[..|c| - 1] + [c[|c| - 1]] && c == [c[0]] + c[1..];
  }

  lemma RunUnfolds<T>(c: seq<WorkItem<T>>, ops: seq<Op<T>>)
    requires ops != []
    ensures Taken(Outputs(c, ops)) == Items(Out(c, ops[0])) + Taken(Outputs(After(c, ops[0]), ops[1..]))
    ensures Final(c, ops) == Final(After(c, ops[0]), ops[1..])
    ensures Pushed(ops) == PushedBy(ops[0]) + Pushed(ops[1..])
  {
    assert Outputs(c, ops)[1..] == Outputs(After(c, ops[0]), ops[1..]);
  }

  /** No run loses, duplicates or invents an item. */
  lemma {:induction false} RunConserves<T>(c: seq<WorkItem<T>>, ops: seq<Op<T>>)
    ensures multiset(c) + multiset(Pushed(ops))
         == multiset(Taken(Outputs(c, ops))) + multiset(Final(c, ops))
    decreases |ops|
  {
    if ops != [] {
      RunUnfolds(c, ops);
      StepConserves(c, ops[0]);
      RunConserves(After(c, ops[0]), ops[1..]);
      var rest, tail := After(c, ops[0]), ops[1..];
      Balance(multiset(c), multiset(PushedBy(ops[0])), multiset(Pushed(tail)), multiset(Items(Out(c, ops[0]))),
              multiset(Taken(Outputs(rest, tail))), multiset(rest), multiset(Final(rest, tail)));
    }
  }

  lemma Balance<T>(c: multiset<T>, p: multiset<T>, ps: multiset<T>, o: multiset<T>, os: multiset<T>,
                   rest: multiset<T>, final: multiset<T>)
    requires c + p == o + rest && rest + ps == os + final
    ensures c + (p + ps) == (o + os) + final
  {
    assert c + (p + ps) == (c + p) + ps == o + (rest + ps);
  }

  lemma StealKeepsOrder<T>(c: seq<WorkItem<T>>, op: Op<T>)
    requires op != Pop
    ensures Items(Out(c, op)) + After(c, op) == c + PushedBy(op)
  {
    assert c != [] ==> c == [c[0]] + c[1..];
  }

  /** Thieves see arrival order: without owner pops, what is stolen followed by what remains
      is exactly the initial contents followed by everything pushed. */
  lemma {:induction false} ThievesAreFifo<T>(c: seq<WorkItem<T>>, ops: seq<Op<T>>)
    requires Pop !in ops
    ensures Taken(Outputs(c, ops)) + Final(c, ops) == c + Pushed(ops)
    decreases |ops|
  {
    if ops != [] {
      var op, rest := ops[0], ops[1..];
      assert op in ops;
      RunUnfolds(c, ops);
      StealKeepsOrder(c, op);
      ThievesAreFifo(After(c, op), rest);
      Regroup(Items(Out(c, op)), Taken(Outputs(After(c, op), rest)), Final(After(c, op), rest));
      Regroup(Items(Out(c, op)), After(c, op), Pushed(rest));
      Regroup(c, PushedBy(op), Pushed(rest));
    }
  }

  lemma Regroup<X>(a: seq<X>, b: seq<X>, c: seq<X>)
    ensures (a + b) + c == a + (b + c)
  {
  }

  /** The owner sees stack order: whatever was there, popping once per pushed item
      returns exactly the pushed items, latest first, and leaves what was there. */
  lemma {:induction false} OwnerIsLifo<T>(c: seq<WorkItem<T>>, items: seq<WorkItem<T>>)
    ensures var pops := seq(|items|, _ => Pop);
            && Final(c + items, pops) == c
            && |Outputs(c + items, pops)| == |items|
            && forall k :: 0 <= k < |items| ==> Outputs(c + items, pops)[k] == Some(items[|items| - 1 - k])
  {
    var pops: seq<Op<T>> := seq(|items|, _ => Pop);
    if items == [] {
      assert c + items == c;
    } else {
      var n := |items| - 1;
      OwnerIsLifo(c, items[..n]);
      assert pops[1..] == seq(n, _ => Pop);
      assert (c + items)[..|c + items| - 1] == c + items[..n];
      assert After(c + items, pops[0]) == c + items[..n];
    }
  }
}
