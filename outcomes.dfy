/** The exceptions the container and the allocator throw, and the value
    wrappers that stand in for them and for nullable pointers. */
module Outcomes {

  /** `std::out_of_range` (from `at` and `erase`) and `std::logic_error`
      (from deallocating an address that is not live). */
  datatype Error = OutOfRange | InvalidFree

  /** A value, or the exception thrown instead of returning it. */
  datatype Result<T> = Ok(value: T) | Err(error: Error)

  /** Normal completion of a `void` operation, or the exception it threw. */
  datatype Outcome = Pass | Fail(error: Error)

  /** A pointer that may be null. */
  datatype Option<T> = None | Some(value: T)
}
