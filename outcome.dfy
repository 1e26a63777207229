/** The exceptions the reader driver raises, as values. */
module Outcome {

  /** Python's exceptions as they arise in the driver:
      - InvalidArgument: the `ValueError` of a range guard, raised before any I/O;
      - Overflow: the `OverflowError` of `int.to_bytes` for a value that does not fit;
      - IndexOutOfRange: the `IndexError` of indexing a response that is too short;
      - TypeMismatch: the `TypeError` of arithmetic on `None`;
      - StillReading: the read loop had not exited when the model stopped following it. */
  datatype Error = InvalidArgument | Overflow | IndexOutOfRange | TypeMismatch | StillReading

  /** Python's optional arguments: `None` or a value. */
  datatype Option<+T> = None | Some(value: T)

  datatype Result<+T> = Ok(value: T) | Err(error: Error) {

    predicate IsFailure() {
      Err?
    }

    function PropagateFailure<U>(): Result<U>
      requires Err?
    {
      Err(error)
    }

    function Extract(): T
      requires Ok?
    {
      value
    }
  }
}
