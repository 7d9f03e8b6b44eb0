/**
 * Result types shared by the parsers, and the sign convention the C API
 * uses for reporting success (return value >= 0) and failure (return
 * value < 0).
 */
module Results {

  datatype Option<+T> = None | Some(value: T)

  /** The error classes a parser or accessor reports. */
  datatype Error =
    | MalformedHeader     // an object-id header line (`tree `, `parent `) did not parse
    | MalformedSignature  // an author/committer line did not parse
    | MalformedCommit     // the commit buffer as a whole is malformed
    | OutOfRange          // a parent index at or beyond the parent count

  datatype Result<+T> = Ok(value: T) | Err(error: Error)

  /** `r` is a successful parse that produced `value` and left the cursor at `next`. */
  predicate Parsed<T(==)>(r: Result<(T, nat)>, value: T, next: nat) {
    r.Ok? && r.value.0 == value && r.value.1 == next
  }

  /** The integer the C entry points return: 0 on success, -1 on any error. */
  function ReturnCode<T>(r: Result<T>): (code: int)
    ensures code >= 0 <==> r.Ok?
    ensures code < 0 <==> r.Err?
  {
    if r.Ok? then 0 else -1
  }
}
