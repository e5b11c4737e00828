/** Result types shared by the whole model. */
module Wrappers {
  /** `std::optional`. */
  datatype Option<+T> = None | Some(value: T) {
    /** `value_or`. */
    function GetOr(default: T): T {
      match this
      case None => default
      case Some(v) => v
    }
  }

  /** A value, or the exception that the source throws instead. */
  datatype Result<+T, +E> = Ok(value: T) | Err(error: E)

  /** The outcome of scanning a text: a value, or `Stall` when the source's loop
      comes back to the same position and therefore never ends. */
  datatype Scan<+T> = Stall | Done(value: T) {
    predicate IsFailure() {
      Stall?
    }

    function PropagateFailure<U>(): Scan<U>
      requires Stall?
    {
      Stall
    }

    function Extract(): T
      requires Done?
    {
      value
    }
  }
}
