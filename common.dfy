/** Small value types shared by the whole model: optional values and the
    two exceptions of the engine, modelled as failure outcomes. */
module Common {

  /** A value that may be absent; `None` plays the role of Python's `None`. */
  datatype Option<+T> = None | Some(value: T)

  /** The two errors the engine raises during search, plus the arity error of
      a binary constraint. */
  datatype Error =
    | InvalidValue      // InvalidValueError: domain or constraint violation
    | InconsistentCsp   // InconsistentCspError: the search space is exhausted
    | WrongArity        // ValueError raised by BinaryConstraint.__init__

  /** Normal return, or the exception a call raised. */
  datatype Outcome = Pass | Fail(error: Error)

  /** A constructor that either yields a value or raises. */
  datatype Result<+T> = Success(value: T) | Failure(error: Error)

  /** A member of a non-empty set. Every loop that takes an arbitrary
      element of a set (Python's unordered iteration) first obtains one. */
  lemma Witness<T>(s: set<T>) returns (w: T)
    requires s != {}
    ensures w in s
  {
    if forall x :: x !in s {
      assert false;
    }
    w :| w in s;
  }
}
