/** Failure-carrying datatypes shared by the whole model, and the exceptions
    and HTTP aborts the Python code raises. */
module Results {

  /** Python's `None` versus a present value. */
  datatype Option<+T> = None | Some(value: T) {
    function GetOr(default: T): T {
      match this
      case Some(v) => v
      case None => default
    }
  }

  /** The exceptions the modelled code raises or lets escape, `abort(code)`,
      and the `URIError` JavaScript's `decodeURIComponent` throws.
      `GzipError` stands for whatever `gzip.decompress` raises on data that
      is not a complete gzip stream (`BadGzipFile`, `EOFError`, `zlib.error`). */
  datatype Failure =
    | RuntimeError(message: string)
    | KeyError
    | IndexError
    | ImportError
    | ValueError
    | NameError
    | AttributeError
    | URIError
    | UnicodeDecodeError
    | GzipError
    | Abort(code: int)

  /** A value, or the failure that the Python code would raise instead. */
  datatype Result<+T> = Ok(value: T) | Err(error: Failure)
}
