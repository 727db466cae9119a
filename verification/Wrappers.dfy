/** Failure-compatible results: the model's form of C++ exceptions and std::optional. */
module Wrappers {
  datatype Option<+T> = None | Some(value: T)

  /** The reasons for which the buffer throws. */
  datatype Error =
    | RegionTooSmall
    | ShortWrite
    | ShortRead
    | QueueSizeMismatch
    | UeRegionSizeMismatch
    | OffsetTooBig
    | LengthTooBig
    | BadChecksum
    | WritePtrTooBig
    | ReadPtrTooBig
    | PointerMismatch
    | UeLogRefused
    | StorerThrew

  datatype Result<+T> = Success(value: T) | Failure(error: Error) {
    predicate IsFailure() {
      Failure?
    }

    function PropagateFailure<U>(): Result<U>
      requires Failure?
    {
      Failure(error)
    }

    function Extract(): T
      requires Success?
    {
      value
    }
  }
}
