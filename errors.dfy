/**
 * Go error values as the core builds and inspects them.
 *
 * The core creates sentinel errors with `errors.New`, wraps causes with
 * `fmt.Errorf("%s: %w", op, err)` and recognises causes with `errors.Is`.
 * Errors raised outside the model (the SQL driver, bcrypt, JWT signing, a
 * cancelled context) are opaque: only their identity matters.
 */
module Errors {

  /** The sentinel values. Each `errors.New` call yields a distinct value, so
      the auth package's ErrUserExists and the storage package's ErrUserExists
      are different sentinels although both say "user exists". */
  datatype Kind =
    | InvalidCredentials   // auth.ErrInvalidCredentials
    | InvalidAppID         // auth.ErrInvalidAppID
    | UserExists           // auth.ErrUserExists
    | StorageUserExists    // storage.ErrUserExists
    | StorageUserNotFound  // storage.ErrUserNotFound
    | StorageAppNotFound   // storage.ErrAppNotFound

  datatype Error =
    | Sentinel(kind: Kind)
    | Foreign(code: int)               // an error from code the model does not interpret
    | InvalidCost(cost: int)           // bcrypt.InvalidCostError: a cost above bcrypt.MaxCost
    | Wrapped(op: string, cause: Error) // fmt.Errorf("%s: %w", op, cause)

  /** The innermost cause of a chain of wrappings: what `errors.Unwrap` reaches
      when applied until it returns nil. */
  function Root(e: Error): (r: Error)
    ensures !r.Wrapped?
  {
    match e
    case Wrapped(_, c) => Root(c)
    case _ => e
  }

  /** `errors.Is(e, target)`: walk the chain of `%w` causes looking for the
      sentinel. It finds one exactly when the chain ends in it, so wrapping
      with an operation tag never changes which kind an error is. */
  predicate Is(e: Error, k: Kind)
    ensures Is(e, k) <==> Root(e) == Sentinel(k)
  {
    match e
    case Sentinel(s) => s == k
    case Foreign(_) | InvalidCost(_) => false
    case Wrapped(_, c) => Is(c, k)
  }
}
