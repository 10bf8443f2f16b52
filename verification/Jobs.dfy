/** Job kinds, modes and ids. */
module Jobs {
  import opened UnitNames
  import opened Wrappers

  datatype JobType = Start | Stop | Restart | TryRestart | Reload | ReloadOrStart | VerifyActive | Nop
  {
    /** On success the job leaves the unit active. */
    predicate ResultsInActive() {
      this in {Start, Restart, ReloadOrStart, Reload, VerifyActive}
    }

    /** A try-restart of an inactive unit does nothing. */
    function CollapseForInactive(): JobType {
      if this == TryRestart then Nop else this
    }
  }

  datatype JobMode = Fail | Replace | ReplaceIrreversibly | Isolate | Flush | IgnoreDependencies | IgnoreRequirements

  type JobId = x: int | 0 <= x < U32_LIMIT

  /** The id a job carries until the transaction is finalised. */
  const PLACEHOLDER: JobId := 0

  datatype Job = Job(id: JobId, unit: UnitName, kind: JobType, mode: JobMode)

  /** The id allocator: a 32-bit counter that wraps. */
  class JobIdAlloc {
    var next: JobId

    constructor ()
      ensures next == 1
    {
      next := 1;
    }

    constructor StartingAt(start: JobId)
      ensures next == if start == PLACEHOLDER then 1 else start
    {
      next := if start > 1 then start else 1;
    }

    method Alloc() returns (id: JobId)
      modifies this
      ensures id == old(next) && next == (old(next) + 1) % U32_LIMIT
    {
      id := next;
      next := (next + 1) % U32_LIMIT;
    }
  }
}
