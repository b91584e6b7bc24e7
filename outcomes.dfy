/** Failures the scheduler reports, and a result type that carries them. */
module Outcomes {

  /** The three failure kinds: a retrieval that names the wrong type, a task
      body that raised, and a dependency graph that has a cycle. */
  datatype Error =
    | TypeMismatch
    | TaskFailed(task: int)
    | CyclicDependency

  datatype Result<+T> = Ok(value: T) | Err(error: Error) {
    predicate IsFailure() { Err? }

    function PropagateFailure<U>(): Result<U>
      requires Err?
    {
      Err(error)
    }

    function Extract(): T
      requires Ok?
    {
      value
    }
  }
}
