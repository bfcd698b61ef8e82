/** Values shared by every part of the model: bytes, failures and the
    `Option`/`Result` wrappers the Rust code returns. */
module Results {

  /** One byte of a file or of an OS file name. */
  newtype byte = b: int | 0 <= b < 256

  /** An opaque failure. The Rust code distinguishes `io::Error`,
      `walkdir::Error` and `DirError`, but only ever propagates them, so
      one error type stands for all three and the `From` conversions are
      the identity. */
  datatype Error = Error(code: nat)

  datatype Option<+T> = None | Some(value: T)

  datatype Result<+T> = Ok(value: T) | Err(error: Error)

  /** The item a fused iterator over `s` yields on its `i`-th call to `next()`. */
  function At<T>(s: seq<T>, i: nat): (r: Option<T>)
    ensures r.Some? <==> i < |s|
    ensures r.Some? ==> r.value == s[i]
  {
    if i < |s| then Some(s[i]) else None
  }

  /** True when no item of `s` is an error. */
  predicate ErrorFree<T>(s: seq<Result<T>>) {
    forall k :: 0 <= k < |s| ==> s[k].Ok?
  }

  /** Two results have the same outcome when both fail (whatever the
      error) or both succeed with the same value. */
  predicate SameOutcome<T(==)>(a: Result<T>, b: Result<T>) {
    (a.Err? && b.Err?) || (a.Ok? && b.Ok? && a.value == b.value)
  }
}
