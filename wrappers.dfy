/** Optional values and step results used by the analysis. */
module Wrappers {

  /** A value that may be absent (a missing CSV cell, an empty candidate set). */
  datatype Option<+T> = None | Some(value: T)

  /** Either the value the step computed or the reason the analysis stopped. */
  datatype Result<+R, +E> = Success(value: R) | Failure(error: E)

  function Min(a: nat, b: nat): (r: nat)
    ensures r <= a && r <= b && (r == a || r == b)
  {
    if a <= b then a else b
  }
}
