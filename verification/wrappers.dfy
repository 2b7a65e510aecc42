/** Failure-compatible datatypes shared by the whole model.

    Rust code in the modelled library has two ways of failing: it returns
    `Err(String)` to its caller, or it panics (an index out of bounds, a failed
    `expect` or `assert!`). `Result` keeps the two apart, so a contract can say
    which one happens. Both propagate with `:-`.
 */
module Wrappers {

  /** The conventional Some/None datatype. */
  datatype Option<+T> = None | Some(value: T) {

    /** Returns the value in Some, or `default` for None. */
    function GetOr(default: T): T {
      match this
      case Some(v) => v
      case None => default
    }
  }

  /** The outcome of a computation that may return an error or panic. */
  datatype Result<+T> =
    | Ok(value: T)
    | Err(error: string)       // an `Err(String)` returned to the caller
    | Panic(reason: string)    // the Rust program aborts
  {
    predicate IsFailure() {
      !Ok?
    }

    function PropagateFailure<U>(): Result<U>
      requires !Ok?
    {
      if Err? then Err(error) else Panic(reason)
    }

    function Extract(): T
      requires Ok?
    {
      value
    }
  }
}
