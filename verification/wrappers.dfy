/** How the model writes Go's nil pointers and error returns. Each type
    supports Dafny's `:-` so that an early `return err` reads as one line:
    - Option<T>: a `*T` that may be nil (`None`).
    - Result<T>: a `(T, error)` pair; `Err` carries the non-nil error.
    - Outcome: a lone `error` return; `Pass` is nil.
    - Error: an `error` value, of which only its text is ever printed. */
module Wrappers {

  /** A non-nil Go `error`, known by its message. */
  datatype Error = Error(message: string)

  datatype Option<+T> = None | Some(value: T) {

    /** A nil pointer stops a `:-` chain. */
    predicate IsFailure() {
      None?
    }

    function PropagateFailure<U>(): Option<U>
      requires None?
    {
      None
    }

    function Extract(): T
      requires Some?
    {
      value
    }
  }

  datatype Result<+T> = Ok(value: T) | Err(error: Error) {

    /** A non-nil error stops a `:-` chain and is passed on unchanged. */
    predicate IsFailure() {
      Err?
    }

    function PropagateFailure<U>(): Result<U>
      requires Err?
    {
      Err(error)
    }

    function Extract(): T
      requires Ok?
    {
      value
    }
  }

  datatype Outcome = Pass | Fail(error: Error) {

    predicate IsFailure() {
      Fail?
    }

    function PropagateFailure(): Outcome
      requires Fail?
    {
      this
    }
  }
}
