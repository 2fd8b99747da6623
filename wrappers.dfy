/** Small value wrappers standing in for the C++ null pointer and the
    `std::out_of_range` exception of checked vector access. */
module Wrappers {

  /** A value that may be absent (a `nullptr` result in the source). */
  datatype Option<+T> = None | Some(value: T)

  /** The result of a checked access: a value, or an out-of-range failure. */
  datatype Checked<+T> = Ok(value: T) | OutOfRange
}
