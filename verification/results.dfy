/** Failure-carrying return types shared by every module of the model.

    The domain code signals failure by throwing. An operation that throws
    before touching any state is modelled with `Result`; an operation that
    may throw after it has already mutated its aggregate is modelled with
    `Outcome`, whose `Aborted` case carries the state the caller is left with.
 */
module Results {

  datatype Option<+T> = None | Some(value: T)

  datatype Result<+T, +E> = Ok(value: T) | Err(error: E) {
    predicate IsFailure() {
      Err?
    }

    function PropagateFailure<U>(): Result<U, E>
      requires Err?
    {
      Err(error)
    }

    function Extract(): T
      requires Ok?
    {
      value
    }

    /** The same result with its error translated by `f`. */
    function MapFailure<E2>(f: E -> E2): (r: Result<T, E2>)
      ensures r.Ok? <==> Ok?
      ensures Ok? ==> r.value == value
      ensures Err? ==> r.error == f(error)
    {
      match this
      case Ok(v) => Ok(v)
      case Err(e) => Err(f(e))
    }
  }

  /** The state an aggregate is left in after a call, with either the call's
      return value or the error it threw. */
  datatype Outcome<+S, +V, +E> =
    | Completed(state: S, result: V)
    | Aborted(state: S, error: E)
}
