/** Values shared by every stream component: an optional value, the
    exceptions the library throws (as data), and a result that carries either
    a value or one of those exceptions. */
module Results {

  datatype Option<T> = None | Some(value: T) {
    /** PHP's `$x ?? $default` */
    function GetOr(default: T): T {
      if Some? then value else default
    }
  }

  /** `StreamException` and `InvalidArgumentException`. A failed `fseek` is
      kept apart because its message interpolates the offset and the whence. */
  datatype Error =
    | StreamError(message: string)
    | SeekFailed(offset: int, whence: int)
    | InvalidArgument(message: string)

  /** What an operation that may throw produces. */
  datatype Result<T> = Ok(value: T) | Err(error: Error)

  const DETACHED := "Stream is detached"
  const NOT_SEEKABLE := "Stream is not seekable"
  const NOT_READABLE := "Stream is not readable"
  const NOT_WRITABLE := "Stream is not writable"
  const NEGATIVE_LENGTH := "Length parameter cannot be negative"
  const SOURCE_NOT_READABLE := "Source stream is not readable"
  const TARGET_NOT_WRITABLE := "Target stream is not writable"
  const COPY_FAILED := "Failed to copy stream"
  const READ_ONLY := "This stream is not writable"
  const INVALID_WHENCE := "Invalid whence"
  const CANNOT_CREATE := "Cannot create stream from "
  const NEITHER_READ_NOR_WRITE := "The stream must be readable, writable, or both."
}
