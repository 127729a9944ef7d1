/** Shared datatypes. */
module Prelude {

  /** A value that JavaScript would represent as `T | null` or `T | undefined`. */
  datatype Option<+T> = None | Some(value: T)

  /** `TaskPriority` of src/core/agents/concurrency.ts; a lower rank is more urgent. */
  datatype TaskPriority = High | Normal | Low {
    function Rank(): int {
      match this
      case High => 0
      case Normal => 1
      case Low => 2
    }
  }

  ghost predicate NoDuplicates<X>(s: seq<X>) {
    forall i, j :: 0 <= i < j < |s| ==> s[i] != s[j]
  }

  function Max(a: int, b: int): int {
    if a < b then b else a
  }
}
