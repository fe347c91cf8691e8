/** Values that stand for the exceptions and optional results of the services. */
module Outcomes {

  datatype Option<+T> = None | Some(value: T)

  datatype Result<+T, +E> = Success(value: T) | Failure(error: E)

  /** A byte of a frame payload or of a media container. */
  type byte = b: int | 0 <= b < 256
}
