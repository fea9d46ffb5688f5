/**
 * The saga orchestrator: an ordered list of steps and the two-phase run over it.
 */
module Orchestration {
  import opened Steps
  import opened SagaSpec

  class Orchestrator {
    /** The registered steps; insertion order is execution order. */
    var steps: seq<Step>

    /** A new orchestrator has no steps. */
    constructor ()
      ensures steps == []
    {
      steps := [];
    }

    /** Registers `step` after every step registered so far. */
    method AddStep(step: Step)
      modifies this
      ensures steps == old(steps) + [step]
      ensures |steps| == |old(steps)| + 1 && steps[|steps| - 1] == step
      ensures forall i :: 0 <= i < |old(steps)| ==> steps[i] == old(steps)[i]
    {
      steps := steps + [step];
    }

    /**
     * Runs the saga: invokes the steps in order until one fails, then
     * compensates from the failed step down to step 0, returning the first
     * compensation error met, or nil. `trace` records every call made on a
     * step. Run has no modifies clause: it leaves the steps as they were.
     */
    method Run() returns (err: Outcome, trace: seq<Event>)
      ensures trace == Saga(steps).trace
      ensures err == Saga(steps).result
    {
      var failedIndex := -1;
      trace := [];

      // Forward phase: invoke in index order, stop at the first failure.
      var i := 0;
      while i < |steps|
        invariant 0 <= i <= |steps|
        invariant failedIndex == -1
        invariant forall j :: 0 <= j < i ==> steps[j].invoke.Ok?
        invariant trace == Invocations(i)
      {
        InvocationsExtend(i);
        trace := trace + [Invoke(i)];
        if steps[i].invoke.Err? {
          failedIndex := i;
          break;
        }
        i := i + 1;
      }
      assert failedIndex == FailedIndex(steps) by {
        if failedIndex != -1 {
          FailedIndexIsFirstFailure(steps, failedIndex);
        }
      }
      ghost var forward := trace;
      assert forward == Invocations(if failedIndex == -1 then |steps| else failedIndex + 1);

      // Rollback phase: compensate from the failed step down to step 0.
      var k := failedIndex;
      while k >= 0
        invariant -1 <= k <= failedIndex
        invariant forall j :: k < j <= failedIndex ==> steps[j].compensate.Ok?
        invariant trace == forward + Compensations(failedIndex, k + 1)
      {
        CompensationsExtend(failedIndex, k + 1);
        trace := trace + [Compensate(k)];
        if steps[k].compensate.Err? {
          assert RollbackStop(steps, failedIndex) == k;
          err := steps[k].compensate;
          return;
        }
        k := k - 1;
      }
      err := Ok;
    }
  }
}
