/** Small sum types used throughout the model: `std::optional` and a result of a
    computation that the C++ code may abort (a `throw`, a failed assertion, or a
    constant evaluation that is ill-formed). */
module Wrappers {

  /** `std::optional<T>`: `None` is `std::nullopt`. */
  datatype Option<+T> = None | Some(value: T)

  /** Why a compile-time computation is rejected. */
  datatype Error =
    | NotNulTerminated   // "Initializer for CompileTimeString should be NULL-terminated"
    | AssertionFailed    // `throw "Assertion failed"`
    | OutOfRange         // an access outside the literal or a buffer: not a constant expression

  datatype Result<+T> = Success(value: T) | Failure(error: Error)
}
