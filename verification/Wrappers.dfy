/** Values that may be absent, and computations that may raise. */
module Wrappers {

  datatype Option<+T> = None | Some(value: T)

  datatype Result<+T, +E> = Ok(value: T) | Err(error: E)

  /** The exceptions that a database session can raise in the modelled code. */
  datatype DbError =
    | MultipleResultsFound  // one_or_none() met two rows
    | IntegrityError        // a unique constraint was violated at flush time
    | DriverError           // the connection or the server failed
}
