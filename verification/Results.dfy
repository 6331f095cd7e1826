/** The four dimensions of a resource's outcome. */
module Results {
  datatype Execution = NotRun | Succeeded | Failed | Indeterminate

  datatype Change = Unchanged | Changed | Possible

  datatype Verification = NotApplicable | NotPerformed | Verified | VerifyFailed | VerifyUnknown

  datatype Disposition = Normal | SkippedByCondition | GuardSatisfied | BlockedByDependency | BlockedByFailFast

  datatype ResourceResult = ResourceResult(
    id: string,
    execution: Execution,
    change: Change,
    verification: Verification,
    disposition: Disposition,
    unknown: bool)
  {
    predicate SatisfiesDependency() {
      match disposition
      case GuardSatisfied => true
      case Normal => execution == Succeeded && verification != VerifyFailed && verification != VerifyUnknown
      case _ => false
    }

    predicate IsUnknownDependency() {
      unknown || (disposition == Normal && execution == Succeeded && verification == VerifyUnknown)
    }

    predicate IsFailure() { execution == Failed }

    predicate IsIndeterminate() { execution == Indeterminate }

    predicate Stops() { IsFailure() || IsIndeterminate() }

    /** Changed for certain and not contradicted: what queues handlers. */
    predicate DefinitelyChanged() {
      !Stops() && change == Changed && execution == Succeeded && verification != VerifyFailed && verification != VerifyUnknown
    }
  }

  /** A result without any effect, as the engine builds it for what it does not run. */
  function NotRunResult(id: string, disposition: Disposition, unknown: bool): ResourceResult {
    ResourceResult(id, NotRun, Unchanged, NotPerformed, disposition, unknown)
  }
}
