/** Failure-compatible result types shared by the other modules. */
module Wrappers {

  /** A value that may be absent; `None` plays the role of `std::string::npos`. */
  datatype Option<+T> = None | Some(value: T)

  /** Either a normal return value or the exception the C++ library would throw. */
  datatype Result<+R, +E> = Success(value: R) | Failure(error: E)
}
