/** The wrapper the other modules share. */
module Wrappers {

  /** A value that may be absent: `std::string::npos`, a missing key, an idle operation. */
  datatype Option<+T> = None | Some(value: T) {

    predicate IsFailure() {
      None?
    }

    function PropagateFailure<U>(): Option<U>
      requires None?
    {
      None
    }

    function Extract(): T
      requires Some?
    {
      value
    }
  }
}
