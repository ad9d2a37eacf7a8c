/** Values shared by every part of the backup script: bytes, optional
    values, the exceptions the script can raise and a result type that
    replaces Python's exception propagation. */
module Types {

  /** One byte of a file (Python's `bytes` element). */
  newtype byte = x: int | 0 <= x < 256

  /** Python's `None` or a value; used for the nullable columns. */
  datatype Option<+T> = None | Some(value: T)

  /** The exceptions the script can see.  Only `CalledProcessError` is
      caught by `run_pg_dump`; every other one propagates untouched. */
  datatype Error =
    | CalledProcessError(message: string)  // pg_dump exited non-zero; `message` is `str(e)`
    | OSError(filename: Option<string>)    // open or exec failure names the file; a failed read does not
    | OtherException(message: string)      // anything else `subprocess.run` may raise

  /** A call that either returns `value` or raises `error`. */
  datatype Result<+T> = Ok(value: T) | Err(error: Error)
}
