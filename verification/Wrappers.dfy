/** Values that may be missing, and results that may be a thrown error. */
module Wrappers {

  datatype Option<T> = None | Some(value: T)

  /** A result, or the exception that src/utils/fail.cpp throws; it ends the run. */
  datatype Outcome<T> = Done(value: T) | Failed
}
