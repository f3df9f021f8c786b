/** A value that may be absent; `:-` leaves a function early as Rust's `?` does. */
module Options {
  datatype Option<+T> = None | Some(value: T) {
    predicate IsFailure() {
      None?
    }

    function PropagateFailure<U>(): Option<U>
      requires None?
    {
      None
    }

    function Extract(): T
      requires Some?
    {
      value
    }

    function UnwrapOr(default: T): T {
      if Some? then value else default
    }
  }
}
