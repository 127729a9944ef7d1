/** The todo file protocol of src/core/todo/todo-manager.ts: optimistic versions under a FIFO mutex,
    with a temporary write, a version write and a rename that may fail separately.

    Reads are sound. A failed temporary write or rename has no effect; a failed version write may or
    may not have taken effect. An updater is any function on contents; `None` means that it throws. */
module TodoManager {
  import opened Prelude

  type Content = string
  type Updater = Content -> Option<Content>

  datatype Fault = NoFault | TempWriteFails | VersionWriteFails(took: bool) | RenameFails

  /** What `update` settles with. */
  datatype Outcome = Success(version: int) | Conflict(version: int) | Threw

  const MAX_RETRIES := 3
  const ITEM_RETRIES := 5

  // ---------------------------------------------------------------- one update under the mutex

  /** The files as `_internalUpdate` leaves them, and its outcome. */
  datatype Updated = Updated(outcome: Outcome, content: Content, version: int)

  /** `_internalUpdate` from attempt `a` on; `faults[a]` is what goes wrong in attempt `a`. */
  function UpdateFrom(a: nat, content: Content, version: int, expected: int, f: Updater, faults: seq<Fault>): Updated
    requires a < MAX_RETRIES == |faults|
    decreases MAX_RETRIES - a
  {
    if version != expected then Updated(Conflict(version), content, version)
    else if f(content).None? then RetryFrom(a, content, version, expected, f, faults)
    else
      match faults[a]
      case NoFault => Updated(Success(version + 1), f(content).value, version + 1)
      case TempWriteFails => RetryFrom(a, content, version, expected, f, faults)
      case VersionWriteFails(took) =>
        RetryFrom(a, content, if took then version + 1 else version, expected, f, faults)
      case RenameFails => RetryFrom(a, content, version + 1, expected, f, faults)
  }

  function RetryFrom(a: nat, content: Content, version: int, expected: int, f: Updater, faults: seq<Fault>): Updated
    requires a < MAX_RETRIES == |faults|
    decreases MAX_RETRIES - a, 0
  {
    if a == MAX_RETRIES - 1 then Updated(Threw, content, version)
    else UpdateFrom(a + 1, content, version, expected, f, faults)
  }

  /** The two files, and the update that runs while the mutex is held. */
  class TodoFiles {
    var content: Content
    var version: int

    constructor (content: Content, version: int)
      ensures this.content == content && this.version == version
    {
      this.content, this.version := content, version;
    }

    method InternalUpdate(expected: int, f: Updater, faults: seq<Fault>) returns (outcome: Outcome)
      requires |faults| == MAX_RETRIES
      modifies this
      ensures Updated(outcome, content, version)
           == UpdateFrom(0, old(content), old(version), expected, f, faults)
    {
      for attempt := 0 to MAX_RETRIES
        invariant UpdateFrom(0, old(content), old(version), expected, f, faults)
               == if attempt < MAX_RETRIES then UpdateFrom(attempt, content, version, expected, f, faults)
                  else Updated(Threw, content, version)
      {
        var currentContent, currentVersion := content, version;
        if currentVersion != expected {
          return Conflict(currentVersion);
        }
        var newContent := f(currentContent);
        if newContent.None? || faults[attempt].TempWriteFails? {
          continue;
        }
        if faults[attempt].VersionWriteFails? {
          if faults[attempt].took {
            version := currentVersion + 1;
          }
          continue;
        }
        version := currentVersion + 1;
        if faults[attempt].RenameFails? {
          continue;
        }
        content := newContent.value;
        return Success(version);
      }
      outcome := Threw;
    }
  }

  /** An update that does not succeed leaves the content alone; a successful one applies the updater
      to the content it found and takes the version after the expected one. */
  lemma {:induction false} UpdateIsAllOrNothing(a: nat, content: Content, version: int, expected: int, f: Updater, faults: seq<Fault>)
    requires a < 3 == |faults|
    ensures var u := UpdateFrom(a, content, version, expected, f, faults);
            && (u.outcome.Success? ==>
                  version == expected && f(content) == Some(u.content) && u.version == expected + 1 == u.outcome.version)
            && (!u.outcome.Success? ==> u.content == content)
            && version <= u.version <= version + 1
            && (u.outcome.Conflict? ==> u.outcome.version == u.version != expected)
    decreases 3 - a
  {
    if a < 3 - 1 {
      UpdateIsAllOrNothing(a + 1, content, version, expected, f, faults);
      UpdateIsAllOrNothing(a + 1, content, version + 1, expected, f, faults);
    }
  }

  /** The attempt bumps the version without renaming, so that the next attempt finds a conflict. */
  predicate Burns(fault: Fault) {
    fault.RenameFails? || (fault.VersionWriteFails? && fault.took)
  }

  /** Exactly when an update succeeds: the version is the expected one, the updater accepts the
      content, and the first attempt that gets past the version write gets past the rename. */
  lemma {:induction false} UpdateSucceedsExactly(a: nat, content: Content, version: int, expected: int, f: Updater, faults: seq<Fault>)
    requires a < 3 == |faults|
    ensures UpdateFrom(a, content, version, expected, f, faults).outcome.Success?
       <==> && version == expected && f(content).Some?
            && exists i :: a <= i < 3 && faults[i].NoFault? && forall j :: a <= j < i ==> !Burns(faults[j])
    decreases 3 - a
  {
    if version == expected && f(content).Some? && !faults[a].NoFault? && a < 3 - 1 {
      if Burns(faults[a]) {
        assert UpdateFrom(a, content, version, expected, f, faults) == UpdateFrom(a + 1, content, version + 1, expected, f, faults);
        assert forall i :: a <= i < 3 && faults[i].NoFault? ==> a <= a < i && Burns(faults[a]);
      } else {
        UpdateSucceedsExactly(a + 1, content, version, expected, f, faults);
        forall i | a + 1 <= i < 3 && faults[i].NoFault? && forall j :: a + 1 <= j < i ==> !Burns(faults[j])
          ensures forall j :: a <= j < i ==> !Burns(faults[j])
        {
        }
      }
    }
    if version == expected && f(content).None? && a < 3 - 1 {
      UpdateSucceedsExactly(a + 1, content, version, expected, f, faults);
    }
  }

  /** Exactly when an update ends in a conflict: the version is not the expected one, or one of the first two attempts
      bumps it without renaming, before any attempt succeeds. Otherwise, without success, it throws. */
  lemma {:induction false} UpdateConflictsExactly(a: nat, content: Content, version: int, expected: int, f: Updater, faults: seq<Fault>)
    requires a < 3 == |faults|
    ensures UpdateFrom(a, content, version, expected, f, faults).outcome.Conflict?
       <==> version != expected || (f(content).Some? && BurnsFirst(a, faults))
    decreases 3 - a
  {
    if version == expected && a < 2 {
      UpdateConflictsExactly(a + 1, content, version, expected, f, faults);
      UpdateConflictsExactly(a + 1, content, version + 1, expected, f, faults);
    }
  }

  /** Attempt 0 burns the version, or attempt 1 does after an attempt 0 that does not succeed. */
  predicate BurnsFirst(a: nat, faults: seq<Fault>)
    requires |faults| == 3
  {
    (a == 0 && Burns(faults[0])) || (a <= 1 && Burns(faults[1]) && (a == 0 ==> !faults[0].NoFault?))
  }
}
