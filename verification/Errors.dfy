/** The error type shared by every wrapper module, with the usual option and result types. */
module Errors {

  /** The errno a retrying loop looks for (FreeBSD numbering). */
  const EINTR := 4

  datatype Option<+T> = None | Some(value: T)

  datatype Error =
    | Os(errno: int)
    | Sce(op: string, code: int)
    | Gai(code: int)
    | InvalidInput(message: string)
  {
    /** A libc failure that a retrying loop may retry. */
    predicate Interrupted() {
      Os? && errno == EINTR
    }
  }

  datatype Result<+T> = Ok(value: T) | Err(error: Error)
}
