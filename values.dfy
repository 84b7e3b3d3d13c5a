/** Small value types shared by the cache: optional values, error-carrying
    results, the three-valued acceptance of a tree node and the provenance
    of a stored classification. */
module Values {

  datatype Option<+T> = None | Some(value: T)

  /** Outcome of an operation that either succeeds or raises `E`. */
  datatype Outcome<+E> = Pass | Fail(error: E)

  /** Result of a value-producing operation that may raise `E`. */
  datatype Result<+T, +E> = Success(value: T) | Failure(error: E)

  /** Three-valued classification held by a tree node. */
  datatype Acceptance = TRUE | FALSE | DONT_KNOW
  {
    /** The committed value standing for a Boolean classification. */
    static function FromBoolean(b: bool): (r: Acceptance)
      ensures r != DONT_KNOW
      ensures r.ToBoolean() == b
    {
      if b then TRUE else FALSE
    }

    /** Boolean projection: only TRUE counts as accepting. */
    function ToBoolean(): bool
    {
      this == TRUE
    }

    /** A committed value that disagrees with the Boolean verdict `b`;
        DONT_KNOW never conflicts. */
    predicate Conflicts(b: bool)
    {
      this != DONT_KNOW && this != FromBoolean(b)
    }
  }

  /** Where a classification came from: the system under learning or the user. */
  datatype CexOrigin = SUL | USER
}
