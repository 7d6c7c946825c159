/** Optional values and the exceptions the scripts can raise. */
module Outcomes {
  datatype Option<+T> = None | Some(value: T)

  datatype Error =
    | StructError          // struct.pack: integer out of range
    | ValueError           // raised by the script itself
    | AssertionError
    | OverflowError        // array.array: element out of range
    | ArgumentError        // argparse: a value was rejected
    | FileMissing          // open() of a path that is not there
    | ToolFailed           // a subprocess returned non-zero

  // What a Python statement that returns nothing can do. `:-` lets a method stop at the first exception.
  datatype Status = Ok | Raised(error: Error) {
    predicate IsFailure() {
      Raised?
    }

    function PropagateFailure(): Status
      requires Raised?
    {
      this
    }
  }

  datatype Result<+T> = Success(value: T) | Failure(error: Error) {
    predicate IsFailure() {
      Failure?
    }

    function PropagateFailure<U>(): Result<U>
      requires Failure?
    {
      Failure(error)
    }

    function Extract(): T
      requires Success?
    {
      value
    }

    function Status(): Status {
      match this
      case Success(_) => Ok
      case Failure(e) => Raised(e)
    }
  }
}
