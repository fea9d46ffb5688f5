/**
 * The values the orchestrator exchanges with its steps.
 *
 * A step is a capability with two operations, Invoke and Compensate, each
 * returning Go's `error`. The model fixes what each call returns, so a step
 * is its scripted pair of outcomes, and the orchestrator's calls on steps are
 * recorded as events of a trace.
 */
module Steps {

  /** An error value. Two errors are the same error exactly when their ids agree. */
  datatype Error = Error(id: nat)

  /** What a call on a step returns: nil (`Ok`) or a non-nil error. */
  datatype Outcome = Ok | Err(error: Error)

  /** A step, given by what its Invoke and its Compensate return. */
  datatype Step = Step(invoke: Outcome, compensate: Outcome)

  /** One call made by the orchestrator on the step at position `index`. */
  datatype Event = Invoke(index: nat) | Compensate(index: nat)
}
