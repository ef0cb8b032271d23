/** Result types shared by the cutter model. */
module Wrappers {

  /** A value that may be absent (java.util.Optional in the source). */
  datatype Option<T> = None | Some(value: T)

  /**
   * The outcome of an operation that reads the board's flat cell buffer
   * without a bounds check: either a value, or the offending flat index,
   * which is what an ArrayIndexOutOfBoundsException carries in the source.
   */
  datatype Outcome<T> = Ok(value: T) | OutOfBounds(index: int)
}
