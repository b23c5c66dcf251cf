/** The two shapes a checked step can return. */
module Results {

  datatype Option<+T> = None | Some(value: T)

  /** A raised `ValueError`, `IndexError` or `sys.exit` is `Rejected`. */
  datatype Verdict<+T> = Accepted(value: T) | Rejected
  {
    predicate IsFailure() {
      Rejected?
    }

    function PropagateFailure<U>(): Verdict<U>
      requires Rejected?
    {
      Rejected
    }

    function Extract(): T
      requires Accepted?
    {
      value
    }
  }
}
