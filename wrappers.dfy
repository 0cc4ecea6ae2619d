/** Result and error types shared by the model.

    The library reports failures by throwing; each exception class it
    throws is one constructor of `Failure`, and an operation that can
    throw returns a `Result`. */
module Wrappers {

  /** The exception classes thrown by the modelled code. */
  datatype Failure =
    | LogicError(msg: string)       // std::logic_error
    | RuntimeError(msg: string)     // std::runtime_error
    | TiffError(msg: string)        // ome::files::tiff::Exception
    | FormatError(msg: string)      // ome::files::FormatException

  datatype Result<+T> = Ok(value: T) | Err(error: Failure) {
    predicate IsFailure() { Err? }

    function PropagateFailure<U>(): Result<U>
      requires Err?
    {
      Err(error)
    }

    function Extract(): T
      requires Ok?
    {
      value
    }
  }

  /** Success or failure of an operation that returns nothing. */
  datatype Outcome = Pass | Fail(error: Failure) {
    predicate IsFailure() { Fail? }

    function PropagateFailure(): Outcome
      requires Fail?
    {
      this
    }
  }

  datatype Option<+T> = None | Some(value: T)
}
