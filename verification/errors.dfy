/** The errors the filesystem service rejects with, and how a stat read sorts them. */
module Errors {
  import opened FileTree

  /** The `code` of an errno-carrying exception raised by the operating system. */
  datatype Code =
    | ENOENT | EACCES | EBUSY | EPERM
    | ENOTDIR | EISDIR | EEXIST | ENOTEMPTY | EINVAL | EIO
    | OtherCode(name: string)

  datatype SyncField = Timestamp | Size

  datatype Error =
    | OsError(code: Code)                         // raised by the operating system
    | NotFound(path: Path)                        // the resource is required but absent
    | AlreadyExists(path: Path)                   // the target exists and may not be replaced
    | TypeConflict(source: Path, target: Path)    // a file would replace a directory or vice versa
    | IsADirectory(path: Path)                    // a file operation named a directory
    | OutOfSync(path: Path, field: SyncField)     // the caller's snapshot is stale
    | CopyRefused(source: Path, target: Path)     // the copy primitive refuses the pair of paths

  /** True of exceptions that carry an errno code. */
  predicate IsErrnoException(e: Error) {
    e.OsError?
  }

  /** The codes a stat read treats as "the resource is not there". */
  predicate IsMissingCode(c: Code) {
    c == ENOENT || c == EACCES || c == EBUSY || c == EPERM
  }

  /**
    Whether a stat read swallows `e` and answers "not found"; every other
    error propagates to the caller.
  */
  function StatSwallows(e: Error): (r: bool)
    ensures r <==> e.OsError? && e.code in {ENOENT, EACCES, EBUSY, EPERM}
    ensures r ==> IsErrnoException(e)
  {
    IsErrnoException(e) && IsMissingCode(e.code)
  }
}
