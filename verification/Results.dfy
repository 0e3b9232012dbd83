/** Results of operations that throw or that return std::expected. */
module Results {

  datatype Option<+T> = None | Some(value: T)

  /** The standard exception classes the modelled code throws. */
  datatype Exception = InvalidArgument | OutOfRange | RuntimeError

  /** How a void operation ends: normally, or by throwing. */
  datatype Outcome = Pass | Throw(exception: Exception)

  /** std::expected, also used for a constructor or a getter that may throw. */
  datatype Expected<+T, +E> = Value(value: T) | Unexpected(error: E)
}
