/** Failure-carrying values shared by every component of the co-clustering model. */
module Results {

  datatype Option<+T> = None | Some(value: T)

  /** The ways a fit can fail instead of returning a clustering. */
  datatype Error =
    /** The matrix mass N is zero, so B = X - r c^T / N and the modularity are undefined (NaN). */
    | NumericalDegeneracy
    /** Fewer rows or fewer columns than requested clusters. */
    | InvalidShape
    /** Explicit initial values that cannot be broadcast onto the missing cells. */
    | ShapeMismatch
    /** A missing cell left unfilled: the NaN fails the finiteness check of `check_array`. */
    | NonFinite

  datatype Result<+T> = Success(value: T) | Failure(error: Error)
}
