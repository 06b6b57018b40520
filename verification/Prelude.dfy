/** Small shared vocabulary: optional values, results that carry an error, and lists of
    positions. */
module Prelude {
  datatype Option<+T> = None | Some(value: T)

  datatype Result<+T, +E> = Ok(value: T) | Err(error: E)

  /** A list of positions in order, each once. */
  ghost predicate Increasing(at: seq<nat>) {
    forall k, m | 0 <= k < m < |at| :: at[k] < at[m]
  }
}
