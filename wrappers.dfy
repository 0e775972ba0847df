/** Option, Outcome and Result: the values the model uses for Java's null and for checks that throw. */
module Wrappers {

  /** A possibly-null reference: `None` is Java's `null`. */
  datatype Option<+T> = None | Some(value: T)

  /** The outcome of a check that either returns normally or throws `error`. */
  datatype Outcome<+E> = Pass | Fail(error: E)

  /** The outcome of a constructor: the built value, or the error it threw. */
  datatype Result<+R, +E> = Success(value: R) | Failure(error: E)

  /** Runs check `a`, then check `b`: the first failure wins. */
  function Then<E>(a: Outcome<E>, b: Outcome<E>): (o: Outcome<E>)
    ensures o.Pass? <==> a.Pass? && b.Pass?
    ensures a.Fail? ==> o == a
  {
    if a.Fail? then a else b
  }
}
