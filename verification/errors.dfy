/** Go's `error` values and its `(value, error)` return pairs, as the service uses them. */
module Errors {

  datatype Option<+T> = None | Some(value: T)

  /** Every error value the core tells apart. Go matches its sentinel errors by
      identity with `errors.Is`; here each sentinel is a constructor and
      matching is structural. */
  datatype Error =
    | NoRows                        // pgx.ErrNoRows: a single-row query matched nothing
    | Database(reason: string)      // any other failure reported by the database
    | ItemNotFound                  // services.ErrItemNotFound
    | ItemsNotFound                 // services.ErrItemsNotFound
    | UserNotFound                  // services.ErrUserNotFound
    | UsersNotFound                 // services.ErrUsersNotFound
    | UnknownClaims                 // lib.ErrUnknownClaims
    | TokenExpired                  // lib.ErrTokenExpired
    | TokenRejected(reason: string) // a parse or signature failure from the token library
    | HashFailure(reason: string)   // the password hasher failed
    | SigningFailure(reason: string) // the token signer failed

  /** A Go `(value, error)` pair. Go returns both halves on every path, and some
      callers read the value even when the error is set, so both are kept. */
  datatype Outcome<T> = Outcome(value: T, err: Option<Error>)

  /** `errors.Is(err, e)`: a nil error matches no sentinel. */
  predicate Is(err: Option<Error>, e: Error) {
    err == Some(e)
  }

  /** The error a repository call reports when the database fails with the
      given reason; no failure gives no error. */
  function DbError(fault: Option<string>): (err: Option<Error>)
    ensures err.None? <==> fault.None?
    ensures fault.Some? ==> err == Some(Database(fault.value))
  {
    if fault.Some? then Some(Database(fault.value)) else None
  }
}
