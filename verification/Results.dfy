/** Outcomes of calls that may be rejected: Python's exceptions and `None`, as values. */
module Results {
  datatype Option<+T> = None | Some(value: T)

  /** What a call can raise: a rejected argument, a failed lookup, or a failure reported by the S3 client. */
  datatype Error = ValueError | AssertionError | KeyError | IndexError | S3Exception

  datatype Result<+T> = Ok(value: T) | Err(error: Error)
}
