/** The stable sort that `Array.prototype.sort` performs (section 23.1.3.30 of ECMAScript 2023).

    `Sort` is one algorithm; `StableSortIsUnique` shows that the choice does not matter,
    because the order and the stability requirement together determine the result. */
module StableSort {

  ghost predicate TotalPreorder<T(!new)>(leq: (T, T) -> bool) {
    && (forall a, b :: leq(a, b) || leq(b, a))
    && (forall a, b, c :: leq(a, b) && leq(b, c) ==> leq(a, c))
  }

  ghost predicate TotalOrder<T(!new)>(leq: (T, T) -> bool) {
    TotalPreorder(leq) && forall a, b :: leq(a, b) && leq(b, a) ==> a == b
  }

  ghost predicate Sorted<T>(leq: (T, T) -> bool, s: seq<T>) {
    forall i, j :: 0 <= i < j < |s| ==> leq(s[i], s[j])
  }

  /** The elements of `s` that compare equal to `a`, in the order of `s`. */
  function Class<T>(leq: (T, T) -> bool, s: seq<T>, a: T): seq<T> {
    if s == [] then []
    else Class(leq, s[..|s| - 1], a) + (if Tied(leq, s[|s| - 1], a) then [s[|s| - 1]] else [])
  }

  predicate Tied<T>(leq: (T, T) -> bool, a: T, b: T) {
    leq(a, b) && leq(b, a)
  }

  /** `out` is sorted, and inside every class of ties it keeps the order of `s`. */
  ghost predicate IsStableSortOf<T(!new)>(leq: (T, T) -> bool, s: seq<T>, out: seq<T>) {
    Sorted(leq, out) && forall a :: Class(leq, out, a) == Class(leq, s, a)
  }

  function Insert<T>(leq: (T, T) -> bool, s: seq<T>, x: T): seq<T> {
    if s == [] || leq(s[|s| - 1], x) then s + [x]
    else Insert(leq, s[..|s| - 1], x) + [s[|s| - 1]]
  }

  function Sort<T>(leq: (T, T) -> bool, s: seq<T>): seq<T> {
    if s == [] then [] else Insert(leq, Sort(leq, s[..|s| - 1]), s[|s| - 1])
  }

  lemma {:induction false} InsertContents<T>(leq: (T, T) -> bool, s: seq<T>, x: T)
    ensures multiset(Insert(leq, s, x)) == multiset(s) + multiset{x}
    ensures |Insert(leq, s, x)| == |s| + 1
  {
    if s != [] && !leq(s[|s| - 1], x) {
      InsertContents(leq, s[..|s| - 1], x);
      assert s == s[..|s| - 1] + [s[|s| - 1]];
    }
  }

  lemma {:induction false} InsertSorted<T(!new)>(leq: (T, T) -> bool, s: seq<T>, x: T)
    requires TotalPreorder(leq) && Sorted(leq, s)
    ensures Sorted(leq, Insert(leq, s, x))
  {
    if s == [] {
    } else if leq(s[|s| - 1], x) {
      forall i | 0 <= i < |s| ensures leq(s[i], x) {
        assert leq(s[i], s[|s| - 1]);
      }
    } else {
      var front, last := s[..|s| - 1], s[|s| - 1];
      InsertSorted(leq, front, x);
      InsertContents(leq, front, x);
      var r := Insert(leq, front, x);
      forall i | 0 <= i < |r| ensures leq(r[i], last) {
        assert r[i] in multiset(r);
        assert r[i] in front || r[i] == x;
      }
    }
  }

  lemma {:induction false} InsertClass<T(!new)>(leq: (T, T) -> bool, s: seq<T>, x: T, a: T)
    requires TotalPreorder(leq)
    ensures Class(leq, Insert(leq, s, x), a) == Class(leq, s + [x], a)
  {
    assert (s + [x])[..|s|] == s;
    if s == [] {
    } else if leq(s[|s| - 1], x) {
    } else {
      var front, last := s[..|s| - 1], s[|s| - 1];
      InsertClass(leq, front, x, a);
      var r := Insert(leq, front, x);
      assert (r + [last])[..|r|] == r;
      assert (front + [x])[..|front|] == front;
    }
  }

  /** Sorting permutes its input ... */
  lemma {:induction false} SortContents<T>(leq: (T, T) -> bool, s: seq<T>)
    ensures multiset(Sort(leq, s)) == multiset(s)
    ensures |Sort(leq, s)| == |s|
  {
    if s != [] {
      SortContents(leq, s[..|s| - 1]);
      InsertContents(leq, Sort(leq, s[..|s| - 1]), s[|s| - 1]);
      assert s == s[..|s| - 1] + [s[|s| - 1]];
    }
  }

  /** ... into order, stably. */
  lemma {:induction false} SortIsStableSort<T(!new)>(leq: (T, T) -> bool, s: seq<T>)
    requires TotalPreorder(leq)
    ensures IsStableSortOf(leq, s, Sort(leq, s))
  {
    if s != [] {
      var front, last := s[..|s| - 1], s[|s| - 1];
      SortIsStableSort(leq, front);
      InsertSorted(leq, Sort(leq, front), last);
      forall a ensures Class(leq, Sort(leq, s), a) == Class(leq, s, a) {
        InsertClass(leq, Sort(leq, front), last, a);
        var r := Sort(leq, front);
        assert (r + [last])[..|r|] == r;
      }
    }
  }

  lemma {:induction false} ClassMember<T>(leq: (T, T) -> bool, s: seq<T>, a: T, x: T)
    ensures x in Class(leq, s, a) <==> x in s && Tied(leq, x, a)
  {
    if s != [] {
      ClassMember(leq, s[..|s| - 1], a, x);
      assert s == s[..|s| - 1] + [s[|s| - 1]];
    }
  }

  lemma LastOfClass<T>(leq: (T, T) -> bool, s: seq<T>, a: T)
    requires s != []
    ensures var u, x := s[..|s| - 1], s[|s| - 1];
      Class(leq, s, a) == if Tied(leq, x, a) then Class(leq, u, a) + [x] else Class(leq, u, a)
  {
    assert Class(leq, s[..|s| - 1], a) + [] == Class(leq, s[..|s| - 1], a);
  }

  lemma SharedMember<T>(leq: (T, T) -> bool, s: seq<T>, t: seq<T>, x: T)
    requires x in s && leq(x, x) && Class(leq, s, x) == Class(leq, t, x)
    ensures x in t
  {
    ClassMember(leq, s, x, x);
    ClassMember(leq, t, x, x);
  }

  lemma LastIsLargest<T>(leq: (T, T) -> bool, s: seq<T>, x: T)
    requires Sorted(leq, s) && x in s && leq(x, x)
    ensures leq(x, s[|s| - 1])
  {
    var i :| 0 <= i < |s| && s[i] == x;
  }

  lemma LastsAreTied<T(!new)>(leq: (T, T) -> bool, s: seq<T>, t: seq<T>)
    requires TotalPreorder(leq) && Sorted(leq, s) && Sorted(leq, t) && s != [] && t != []
    requires forall a :: Class(leq, s, a) == Class(leq, t, a)
    ensures var x, y := s[|s| - 1], t[|t| - 1]; Tied(leq, x, x) && Tied(leq, y, x)
  {
    var x, y := s[|s| - 1], t[|t| - 1];
    assert leq(x, x) && leq(y, y);
    SharedMember(leq, s, t, x);
    SharedMember(leq, t, s, y);
    LastIsLargest(leq, t, x);
    LastIsLargest(leq, s, y);
  }

  lemma SameLast<T>(leq: (T, T) -> bool, s: seq<T>, t: seq<T>)
    requires s != [] && t != []
    requires var x, y := s[|s| - 1], t[|t| - 1]; Tied(leq, x, x) && Tied(leq, y, x)
    requires Class(leq, s, s[|s| - 1]) == Class(leq, t, s[|s| - 1])
    ensures s[|s| - 1] == t[|t| - 1]
  {
    var x, y := s[|s| - 1], t[|t| - 1];
    LastOfClass(leq, s, x);
    LastOfClass(leq, t, x);
    assert (Class(leq, s[..|s| - 1], x) + [x])[|Class(leq, s, x)| - 1] == x;
    assert (Class(leq, t[..|t| - 1], x) + [y])[|Class(leq, t, x)| - 1] == y;
  }

  lemma SameFronts<T>(leq: (T, T) -> bool, s: seq<T>, t: seq<T>, a: T)
    requires s != [] && t != [] && s[|s| - 1] == t[|t| - 1] && Class(leq, s, a) == Class(leq, t, a)
    ensures Class(leq, s[..|s| - 1], a) == Class(leq, t[..|t| - 1], a)
  {
    LastOfClass(leq, s, a);
    LastOfClass(leq, t, a);
    if Tied(leq, s[|s| - 1], a) {
      var n := |Class(leq, s, a)|;
      assert Class(leq, s, a)[..n - 1] == Class(leq, s[..|s| - 1], a);
      assert Class(leq, t, a)[..n - 1] == Class(leq, t[..|t| - 1], a);
    }
  }

  /** Two sorted sequences with the same classes are the same sequence. */
  lemma {:induction false} SameClassesSameSequence<T(!new)>(leq: (T, T) -> bool, s: seq<T>, t: seq<T>)
    requires TotalPreorder(leq) && Sorted(leq, s) && Sorted(leq, t)
    requires forall a :: Class(leq, s, a) == Class(leq, t, a)
    ensures s == t
    decreases |s|
  {
    if s == [] || t == [] {
      if s != [] { ClassMember(leq, s, s[0], s[0]); ClassMember(leq, t, s[0], s[0]); }
      if t != [] { ClassMember(leq, t, t[0], t[0]); ClassMember(leq, s, t[0], t[0]); }
    } else {
      LastsAreTied(leq, s, t);
      SameLast(leq, s, t);
      var u, v := s[..|s| - 1], t[..|t| - 1];
      forall a ensures Class(leq, u, a) == Class(leq, v, a) {
        SameFronts(leq, s, t, a);
      }
      SameClassesSameSequence(leq, u, v);
      assert s == u + [s[|s| - 1]] && t == v + [t[|t| - 1]];
    }
  }

  /** Order and stability leave no freedom: every stable sort of `s` equals `Sort(s)`. */
  lemma StableSortIsUnique<T(!new)>(leq: (T, T) -> bool, s: seq<T>, out: seq<T>)
    requires TotalPreorder(leq) && IsStableSortOf(leq, s, out)
    ensures out == Sort(leq, s)
  {
    SortIsStableSort(leq, s);
    SameClassesSameSequence(leq, out, Sort(leq, s));
  }

  /** A sorted sequence is left as it is. */
  lemma SortedIsFixed<T(!new)>(leq: (T, T) -> bool, s: seq<T>)
    requires TotalPreorder(leq) && Sorted(leq, s)
    ensures Sort(leq, s) == s
  {
    StableSortIsUnique(leq, s, s);
  }

  lemma SamePermutedLast<T(!new)>(leq: (T, T) -> bool, s: seq<T>, t: seq<T>)
    requires Sorted(leq, s) && Sorted(leq, t) && multiset(s) == multiset(t) && s != [] && t != []
    requires forall a, b :: a in s && b in s && leq(a, b) && leq(b, a) ==> a == b
    requires forall a :: leq(a, a)
    ensures s[|s| - 1] == t[|t| - 1]
  {
    var x, y := s[|s| - 1], t[|t| - 1];
    assert y in multiset(t) && x in multiset(s);
    var i :| 0 <= i < |s| && s[i] == y;
    var j :| 0 <= j < |t| && t[j] == x;
    assert leq(s[i], x) && leq(t[j], y);
  }

  lemma DropLast<T>(s: seq<T>, x: T)
    requires s != [] && s[|s| - 1] == x
    ensures multiset(s[..|s| - 1]) == multiset(s) - multiset{x}
  {
    assert s == s[..|s| - 1] + [x];
  }

  /** Without ties, a multiset can be sorted in one way only. */
  lemma {:induction false} SortedOnceOnly<T(!new)>(leq: (T, T) -> bool, s: seq<T>, t: seq<T>)
    requires Sorted(leq, s) && Sorted(leq, t) && multiset(s) == multiset(t)
    requires forall a, b :: a in s && b in s && leq(a, b) && leq(b, a) ==> a == b
    requires forall a :: leq(a, a)
    ensures s == t
  {
    assert |multiset(s)| == |s| && |multiset(t)| == |t|;
    if s != [] {
      SamePermutedLast(leq, s, t);
      DropLast(s, s[|s| - 1]);
      DropLast(t, s[|s| - 1]);
      SortedOnceOnly(leq, s[..|s| - 1], t[..|t| - 1]);
    }
  }

  /** What stands at two places of a list is in it twice. */
  lemma TwoPlaces<X>(s: seq<X>, i: nat, j: nat)
    requires i < j < |s|
    ensures s[i] == s[j] ==> multiset(s)[s[i]] >= 2
  {
    assert s == s[..i] + [s[i]] + s[i + 1..j] + [s[j]] + s[j + 1..];
  }

  // ---------------------------------------------------------------- what stability means for two elements

  /** `x` stands somewhere before `y`. */
  ghost predicate StandsBefore<T(!new)>(s: seq<T>, x: T, y: T) {
    exists i, j :: 0 <= i < j < |s| && s[i] == x && s[j] == y
  }

  lemma StandsBeforeInLonger<T(!new)>(s: seq<T>, more: seq<T>, x: T, y: T)
    requires StandsBefore(s, x, y)
    ensures StandsBefore(s + more, x, y)
  {
    var i, j :| 0 <= i < j < |s| && s[i] == x && s[j] == y;
    assert (s + more)[i] == x && (s + more)[j] == y;
  }

  lemma StandsBeforeLast<T(!new)>(s: seq<T>, x: T, y: T)
    requires x in s
    ensures StandsBefore(s + [y], x, y)
  {
    var i :| 0 <= i < |s| && s[i] == x;
    assert (s + [y])[i] == x && (s + [y])[|s|] == y;
  }

  /** Two ties stand in their class in the order in which they stand in the list ... */
  lemma {:induction false} ClassKeepsOrder<T(!new)>(leq: (T, T) -> bool, s: seq<T>, a: T, p: nat, q: nat)
    requires p < q < |s| && Tied(leq, s[p], a) && Tied(leq, s[q], a)
    ensures StandsBefore(Class(leq, s, a), s[p], s[q])
  {
    var front, last := s[..|s| - 1], s[|s| - 1];
    if q < |s| - 1 {
      ClassKeepsOrder(leq, front, a, p, q);
      StandsBeforeInLonger(Class(leq, front, a), if Tied(leq, last, a) then [last] else [], s[p], s[q]);
    } else {
      assert s[p] == front[p];
      ClassMember(leq, front, a, s[p]);
      StandsBeforeLast(Class(leq, front, a), s[p], s[q]);
    }
  }

  /** ... and the other way round. */
  lemma {:induction false} ClassOrderIsListOrder<T(!new)>(leq: (T, T) -> bool, s: seq<T>, a: T, x: T, y: T)
    requires StandsBefore(Class(leq, s, a), x, y)
    ensures StandsBefore(s, x, y)
  {
    var front, last := s[..|s| - 1], s[|s| - 1];
    var c := Class(leq, front, a);
    assert s == front + [last];
    var i, j :| 0 <= i < j < |Class(leq, s, a)| && Class(leq, s, a)[i] == x && Class(leq, s, a)[j] == y;
    if j < |c| {
      assert c[i] == x && c[j] == y;
      ClassOrderIsListOrder(leq, front, a, x, y);
      StandsBeforeInLonger(front, [last], x, y);
    } else {
      assert c[i] == x && y == last;
      ClassMember(leq, front, a, x);
      StandsBeforeLast(front, x, last);
    }
  }

  /** A stable sort leaves ties in the order in which they stood. */
  lemma TiesStayInOrder<T(!new)>(leq: (T, T) -> bool, s: seq<T>, out: seq<T>, p: nat, q: nat)
    requires IsStableSortOf(leq, s, out) && p < q < |s| && Tied(leq, s[p], s[p]) && Tied(leq, s[q], s[p])
    ensures StandsBefore(out, s[p], s[q])
  {
    ClassKeepsOrder(leq, s, s[p], p, q);
    ClassOrderIsListOrder(leq, out, s[p], s[p], s[q]);
  }
}
