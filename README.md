# Saga orchestrator — a verified model

This project models the saga orchestrator of `go-saga-sample` and the small
key/value store that its steps share.

A saga is an ordered list of steps. Each step has a forward action (`Invoke`)
and an undo action (`Compensate`). The orchestrator's `Run` works in two phases:

- **Forward phase.** It invokes the steps in index order and stops at the
  first failing `Invoke`, the *failure point*.
- **Rollback phase.** It then compensates from the failure point down to
  step 0. The failed step itself is compensated. It returns the first
  `Compensate` error it meets, or nil.

So an `Invoke` error that is rolled back cleanly is never reported.

Files:

- `steps.dfy` (module `Steps`): errors, call outcomes, steps and trace events.
  A step is given by what its `Invoke` and its `Compensate` return.
  An error is a value with an identity (`Error(id)`), compared by equality.
- `saga_spec.dfy` (module `SagaSpec`): a loop-free definition of a run.
  `Saga(steps)` gives the calls made and the error returned. It is built from
  `FailedIndex` (the failure point, or -1) and `RollbackStop` (where rollback
  stops). The lemmas in this file state the properties of a run.
- `orchestrator.dfy` (module `Orchestration`): class `Orchestrator`.
  It has a `steps: seq<Step>` field, a constructor, `AddStep`, and `Run`.
  `Run` is written as the source's two loops. It returns the error and a trace
  of `Invoke(i)` / `Compensate(i)` events, and it is proved to agree with
  `Saga`.
- `state.dfy` (module `SagaState`): class `State<V>`. It wraps a
  `map<string, V>` and has `Get` (which reports `ErrNoKey` for a missing key)
  and `Set` (which writes in place).

The failed step itself is compensated: the rollback loop starts at the
failure index (saga/orchestrator.go:30), and the test at
saga/orchestrator_test.go:46-60 expects `Compensate` on a step whose `Invoke`
failed.

## Model

| member | source | states |
|---|---|---|
| `SagaSpec.FailedIndex` | saga/orchestrator.go:20-28 | The failure point is -1 exactly when every `Invoke` succeeds. Otherwise it is the index of a failing `Invoke` with every earlier `Invoke` succeeding. |
| `SagaSpec.FailedIndexIsFirstFailure` | saga/orchestrator.go:22-27 | The first failing step is unique: a step that fails while every earlier one succeeds is the failure point. |
| `SagaSpec.RollbackStop` | saga/orchestrator.go:30-35 | Rollback starting at k stops at the highest j <= k whose `Compensate` fails. Every `Compensate` above j, up to k, succeeds. The result is -1 if none fails. |
| `SagaSpec.EmptySaga` | saga/orchestrator_test.go:23-27 | With no steps, a run makes no calls and returns nil. |
| `SagaSpec.AllInvokesSucceed` | saga/orchestrator.go:20-37 | If every `Invoke` succeeds, the trace is exactly Invoke(0), …, Invoke(n-1). No `Compensate` is called and the result is nil. |
| `SagaSpec.NothingBeyondFailure` | saga/orchestrator.go:24-27 | After the first failure at k, no step with index > k is invoked or compensated. |
| `SagaSpec.CleanRollback` | saga/orchestrator.go:30-37 | Failure at k with every `Compensate` from k to 0 succeeding: the trace is Invoke(0..k) then Compensate(k), …, Compensate(0), and the result is nil. |
| `SagaSpec.TwoStepRollback` | saga/orchestrator_test.go:103-122 | With two steps where B's `Invoke` fails: the trace is A.Invoke, B.Invoke, B.Compensate, A.Compensate, and the result is nil. |
| `SagaSpec.CompensationFails` | saga/orchestrator.go:30-35 | Failure at k and a failing `Compensate` at j (with those above it succeeding): `Run` returns j's error. The trace ends with Compensate(j), and no step below j is compensated. |
| `SagaSpec.OnlyCompensationErrorsReturned` | saga/orchestrator.go:30-37 | The result is nil iff every `Compensate` called succeeded. A non-nil result is the error of the last call, which is a `Compensate`. An `Invoke` error is never returned. |
| `SagaSpec.SagaOrdered` | saga/orchestrator.go:22-35 | Invokes happen once each, in increasing order, and all come before any `Compensate`. Compensations happen once each, in decreasing order, starting at the last step invoked and retracing the invocations backwards. |
| `SagaSpec.AppendAfterFailure` | saga/orchestrator.go:22-28 | Adding any steps after the failure point leaves the calls and the result of a run unchanged. |
| `Orchestration.Orchestrator.constructor` | saga/orchestrator.go:9-13 | A new orchestrator has an empty step sequence. |
| `Orchestration.Orchestrator.AddStep` | saga/orchestrator.go:15-17 | Appends exactly one step at the end. Earlier steps keep their positions. |
| `Orchestration.Orchestrator.Run` | saga/orchestrator.go:19-38 | The two loops make exactly the calls of `Saga(steps)` and return its result. There is no modifies clause, so the step sequence is unchanged. |
| `SagaState.State.constructor` | saga/state.go:11-13 | A new store is empty, so `Get` of any key fails with `ErrNoKey`. |
| `SagaState.State.Get` | saga/state.go:15-22 | A missing key gives `ErrNoKey` and no value. A present key gives its stored value. `Get` only reads the store. |
| `SagaState.State.Set` | saga/state.go:24-26 | Afterwards `Get(key)` returns the new value, whatever was stored before (a second `Set` overwrites). Every other key keeps its presence and value. |

## Left out

- `context.Context` is not modelled. It is passed through to the steps, but the orchestrator never checks it, so cancellation and deadlines have no effect on a run.
- A step's side effects (its I/O and its writes to shared state) are not modelled. A step is only the pair of results its two calls return.
- Steps are scripted with a fixed outcome per call. A stateful step that would answer differently on a second `Run` is modelled as a different step sequence for that run.
- `Steps` is an exported field in Go, so callers may reassign it directly. The model only changes it through the constructor and `AddStep`.
- The `any` value type of the store is a type parameter `V`. Go's error identity (`errors.Is` on sentinel values) is modelled as equality of `Error` values.
- main.go is not part of this model: its demo steps, its panicking accessors and the process exit are caller code, not orchestration.
- saga/step.go declares only the `Step` interface. It is modelled as the `Step` datatype of scripted outcomes, not as a component of its own.
- The gomock machinery of saga/orchestrator_test.go is not modelled. Its expected call orders are stated as the lemmas above.
- `NewOrchestrator` returns a struct value, so Go copies of an `Orchestrator` share the `Steps` backing array and can then diverge after an `append`. In the model `Orchestrator` is a reference class, so this sharing is not captured.
- A zero-valued Go `State` is a nil map, and `Set` panics on it. The model's `State` can only be built by its constructor, so that case does not arise in the model.
