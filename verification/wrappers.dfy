/** Failure-carrying datatypes used where the Python code returns `None`
    or raises instead of producing a value. */
module Wrappers {

  /** `None` plays the role of Python's `None` result. */
  datatype Option<+T> = None | Some(value: T)

  /** `Err` stands for an exception the Python code raises (and does not catch). */
  datatype Result<+T, +E> = Ok(value: T) | Err(error: E)
}
