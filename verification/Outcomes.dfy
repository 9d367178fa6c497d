/**
 Results of callbacks that may end the program. In the original, a failed assertion, a failed
 precondition and a fatal error all abort the process; here they are values, so that a lemma can
 say that they do not occur.
 */
module Outcomes {

  /** The state after a callback, or the check at which the program aborted. */
  datatype Outcome<+S, +A> = Continues(state: S) | Aborts(at: A) {

    predicate IsFailure() {
      Aborts?
    }

    function PropagateFailure<T>(): Outcome<T, A>
      requires Aborts?
    {
      Aborts(at)
    }

    function Extract(): S
      requires Continues?
    {
      state
    }
  }

  /** What a method that changes an object in place reports: it returned, or the program aborted. */
  datatype Status<+A> = Returned | Halted(at: A) {

    predicate IsFailure() {
      Halted?
    }

    function PropagateFailure(): Status<A>
      requires Halted?
    {
      this
    }
  }
}
