/** Optional values, results and the Python exceptions the helpers raise. */
module Wrappers {

  datatype Option<+T> = None | Some(value: T)

  /** A value, or the exception the Python code would raise instead. */
  datatype Result<+T, +E> = Success(value: T) | Failure(error: E)

  /** The built-in exceptions raised by the modelled helpers. */
  datatype PyError = KeyError | ValueError | IndexError

  /** A non-empty set has an element (the witness `set.pop()` and
    * `:|` choose from). */
  lemma NonEmptyHasElement<T>(s: set<T>)
    requires s != {}
    ensures exists x :: x in s
  {
    if forall x :: x !in s {
      assert false;
    }
  }

  /** `set.pop()`: some element of a non-empty set; which one is left open. */
  method Pop<T>(s: set<T>) returns (x: T)
    requires s != {}
    ensures x in s
  {
    NonEmptyHasElement(s);
    x :| x in s;
  }
}
