/** Result types shared by the whole model: an optional value, a value-or-error,
    a success-or-error status, and the error kinds the facade and the store raise. */
module Outcomes {

  datatype Option<+T> = None | Some(value: T)

  /** The error kinds. The first four are all raised as Python `ValueError`
      by the facade; `DirectoryNotEmpty` is its own exception class; the rest
      are errors of the object-store client that the facade lets through. */
  datatype Error =
    | InvalidPath          // the path does not fit the path grammar
    | NotADirectory        // a directory operation got a file-shaped path
    | InvalidOperand       // an operation got a path of the wrong kind
    | NotFound             // "No such file or directory"
    | DirectoryNotEmpty    // non-recursive delete of a non-empty directory
    | NoSuchBucket         // store: the bucket does not exist
    | NoSuchKey            // store: the object does not exist
    | BucketNotEmpty       // store: remove_bucket on a bucket that still has objects
    | BucketAlreadyExists  // store: make_bucket on an existing bucket
    | InvalidBucketName    // store: the bucket name is not acceptable
    | InvalidObjectName    // store: the object name is not acceptable

  /** True of the kinds that the facade raises as `ValueError`. */
  predicate IsValueError(e: Error) {
    e.InvalidPath? || e.NotADirectory? || e.InvalidOperand? || e.NotFound?
  }

  datatype Result<+T> = Ok(value: T) | Err(error: Error)

  datatype Status = Done | Failed(error: Error)
}
