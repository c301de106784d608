/**
 * The constants that `LongExtensions` reads from the library's `Constants`
 * class. Their definitions are not part of this model, so they are declared
 * without values: their types state all that the proofs may assume of them,
 * namely that the range of valid timestamps contains the epoch itself and
 * fits in an `int`. `BoundsAreInt32Bounds` names the reading their names
 * suggest, for the few facts that depend on it.
 */
module Constants {
  import opened Numerics
  import opened Time

  /** The `int` values that are at most 0. */
  type NonPos32 = x: int | INT32_MIN <= x <= 0

  /** The `int` values that are at least 0. */
  type NonNeg32 = x: int | 0 <= x <= INT32_MAX

  /** The smallest second-resolution epoch timestamp. */
  const MIN_VALUE_INT: NonPos32

  /** The largest second-resolution epoch timestamp. */
  const MAX_VALUE_INT: NonNeg32

  /** The instant 1970-01-01T00:00:00Z. */
  const UNIX_EPOCH: DateTime

  /** The bounds are `int.MinValue` and `int.MaxValue`. */
  predicate BoundsAreInt32Bounds() {
    MIN_VALUE_INT == INT32_MIN && MAX_VALUE_INT == INT32_MAX
  }
}
