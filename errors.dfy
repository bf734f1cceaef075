/** Outcomes of the reader's operations. An `io::Error` from the byte source
    and a Rust panic (a failed `assert!`, an index out of bounds, an `unwrap`
    of `None`, an arithmetic overflow in a debug build) both end the operation;
    the model returns them as errors so that no precondition has to exclude the
    malformed input that causes them. */
module Errors {

  datatype Error =
    | UnexpectedEof
    | Panic(reason: string)

  datatype Result<+T> = Ok(value: T) | Err(error: Error) {
    predicate IsFailure() {
      Err?
    }

    function PropagateFailure<U>(): Result<U>
      requires Err?
    {
      Err(error)
    }

    function Extract(): T
      requires Ok?
    {
      value
    }
  }

  datatype Option<+T> = None | Some(value: T)
}
