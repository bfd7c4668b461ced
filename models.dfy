/**
 * The domain records the core passes around (package models, which the
 * storage layer fills from its `users` and `apps` tables).
 */
module Models {
  import opened Bcrypt

  /** A registered account. The store assigns `id`; `passHash` is a bcrypt
      hash, never the password itself. */
  datatype User = User(id: int, email: string, passHash: PassHash)

  /** A client application; tokens issued for it are signed with `secret`. */
  datatype App = App(id: int, name: string, secret: string)
}
