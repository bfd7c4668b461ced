# grpc-auth: a verified model of the authentication core

This project models the authentication service of a gRPC credential-issuance
microservice. The service registers accounts, checks credentials and issues
JSON Web Tokens scoped to one client application. The model covers:

- the auth service (`internal/services/auth/auth.go`): `Login`, `RegisterNewUser`
  and `IsAdmin`, with their error sentinels and the way they map the store's
  errors onto their own;
- the RPC boundary (`internal/grpc/auth/server.go`): the three request validators
  and the three handlers, which collapse every service error into one
  `Internal` status;
- the store contract the service consumes (`UserSaver`, `UserProvider`,
  `AppProvider`), as the SQLite storage fulfils it, kept in memory;
- bcrypt and JWT signing, as abstract functions.

Modules, one per file:

- `Results` (results.dfy): `Option` and `Result`, standing for Go's `(value, error)` pairs.
- `Errors` (errors.dfy): Go error values. There are sentinels, opaque foreign
  errors, bcrypt's invalid-cost error and `%w` wrappings. `errors.Is` walks the chain.
- `Bcrypt` (bcrypt.dfy): hash generation and comparison.
- `Models` (models.dfy): the `User` and `App` records.
- `Jwt` (jwt.dfy): token claims, issuing and parsing.
- `Sqlite` (storage.dfy): class `Storage`. It holds the users by email, the
  admin flags by id, the apps by id and the next id. `SaveUser` is a method.
  `User`, `IsAdmin` and `App` are functions of its state.
- `AuthService` (auth.dfy): class `Auth`. Its collaborators and token lifetime
  are fixed at construction. `Login` and `IsAdmin` are functions that only
  read the stores. `RegisterNewUser` is a method that writes the saver store.
- `AuthServer` (server.dfy): the validators as pure functions, and class
  `Server` with the three handlers.
- `Scenarios` (scenarios.dfy): the register-then-login integration test, and
  a duplicate registration, stated as verified methods over the model.

Failures of code outside the model are parameters of type `Option<int>`.
`Some(code)` means the call fails with an opaque error. This covers the SQL
driver, a cancelled or expired request context, bcrypt and JWT signing. The
clock is a parameter too: `now` is the login instant in Unix nanoseconds, and
`tokenTTL` is a duration in nanoseconds.

`Login` and `IsAdmin` are functions with `reads` clauses only, so they cannot
change the store. Only `RegisterNewUser` calls `SaveUser`. A handler that
rejects a request at validation returns a value fixed by the request alone.
The `Register` handler's contract also says that the store is unchanged.

Behaviour reproduced as the code has it, although it looks unintended:

- `RegisterNewUser` logs and drops a `SaveUser` failure other than "user exists".
  It then reports success with the id the store returned, which is 0 for the
  SQLite store. The caller never learns that nothing was saved.
- `IsAdmin` turns the store's `ErrAppNotFound`, which the store also uses for a
  missing user, into `ErrInvalidAppID`. The service has no "user not found"
  kind, so an unknown user id is reported as an invalid app id.
- `Login` passes the app lookup's `ErrAppNotFound` on, wrapped, and does not
  recode it.
- The operation tag of `IsAdmin` is `"Auth.IsAdmin"`, with a capital A.

## Model

| member | source | states |
|---|---|---|
| Errors.Is | internal/services/auth/auth.go:82 | `errors.Is(e, k)` holds exactly when the innermost cause of `e`'s `%w` chain is the sentinel `k`, so wrapping with an operation tag never changes an error's kind |
| Bcrypt.GenerateFromPassword | internal/services/auth/auth.go:144-152 | hashing fails with the library's error when the library fails, and with an invalid-cost error for a cost above MaxCost (31); otherwise the hash's cost lies in MinCost..MaxCost, is the requested cost when that is at least MinCost (4), and is DefaultCost (10) for a lower one |
| Bcrypt.CompareHashAndPassword | internal/services/auth/auth.go:99 | a password is accepted by a hash exactly when hashing that password at the hash's own cost gives that hash, so a hash whose cost lies outside MinCost..MaxCost accepts nothing |
| Bcrypt.CompareExactly | internal/services/auth/auth.go:99 | hashing succeeds at every cost up to MaxCost, and a hash generated from password `p` verifies password `q` if and only if `q == p` |
| Jwt.ExpiresAt | tests/auth_register_login_test.go:60-61 | the `exp` claim is the issue instant plus the lifetime in whole seconds, rounded down: within one second of the exact expiry |
| Jwt.NewToken | internal/services/auth/auth.go:117-125 | signing fails only when the signer fails; otherwise the token is signed with the app's secret and carries the claims uid = user id, email = user email, app_id = app id, exp = now + lifetime |
| Jwt.IssuedTokenParses | tests/auth_register_login_test.go:49-61 | an issued token, parsed at any instant up to its expiry, yields exactly the issued claims under the app's secret and nothing under any other key; once the expiry second has passed it is refused under every key |
| Sqlite.Storage.SaveUser | internal/storage/sqlite/sqlite.go:32-57 | a duplicate email yields storage.ErrUserExists and id 0 and changes nothing; a fresh email is stored with the given hash under the next id, which is positive and larger than every existing id, with admin flag false; the table constraints are preserved |
| Sqlite.Storage.User | internal/storage/sqlite/sqlite.go:59-81 | the lookup succeeds exactly when the driver does and the email is stored; over a consistent table the row found has that email and an issued id; a miss is storage.ErrUserNotFound; every error is tagged with the operation |
| Sqlite.Storage.IsAdmin | internal/storage/sqlite/sqlite.go:83-104 | over a consistent table, the lookup succeeds exactly when some stored user has the id, and fails with storage.ErrAppNotFound when no user has it; a driver error is passed on tagged |
| Sqlite.Storage.App | internal/storage/sqlite/sqlite.go:106-128 | the lookup succeeds exactly when the driver does and the app is stored; over a consistent table the app found has the requested id; a miss is storage.ErrAppNotFound |
| Sqlite.SaveThenLookup | internal/storage/sqlite/sqlite.go:32-128 | after saving a fresh email, `User` finds the saved row by that email and `IsAdmin` a false flag by the new id; every other email, id and app reads as before |
| AuthService.Auth.New | internal/services/auth/auth.go:47-61 | the service keeps the three store capabilities and the token lifetime it is given |
| AuthService.Auth.Login | internal/services/auth/auth.go:63-128 | an unknown email and a wrong password both give ErrInvalidCredentials, and nothing else does; the password is checked before the app, so a wrong password with an unknown app still gives ErrInvalidCredentials; a failed user lookup other than "not found" is passed on wrapped; with good credentials an unknown app gives storage.ErrAppNotFound, neither ErrInvalidCredentials nor ErrInvalidAppID, and a failing app lookup or signing gives that failure, tagged with the operations; success happens exactly when both lookups, the password check and the signing succeed, and the token is signed with the app's secret and carries the stored user's id and email, the stored app's id and the expiry now + tokenTTL |
| AuthService.Auth.RegisterNewUser | internal/services/auth/auth.go:130-173 | a hashing failure is returned wrapped and changes nothing; an existing email gives ErrUserExists and changes nothing; a fresh email is stored with the bcrypt hash of the password, not the password, and the new positive, unused id is returned; any other SaveUser failure is dropped and the call succeeds with id 0 and changes nothing |
| AuthService.Auth.IsAdmin | internal/services/auth/auth.go:175-202 | the stored flag is returned unchanged when the store finds the user; the store's not-found signal becomes ErrInvalidAppID, which no longer matches storage.ErrAppNotFound; any other store error is passed on wrapped |
| AuthService.OnlyRegisteredPasswordLogsIn | internal/services/auth/auth.go:99-127 | for a user stored with the hash of `p` and an existing app, login with no failing collaborator succeeds for `p` and for no other password, which gets ErrInvalidCredentials; the token carries the user's id, the requested email, the requested app id and the expiry now + tokenTTL, and is signed with that app's secret |
| AuthServer.ValidateLogin | internal/grpc/auth/server.go:105-119 | a login request passes exactly when email and password are non-empty and app_id is non-zero; otherwise InvalidArgument, naming the first missing field in the order email, password, app_id |
| AuthServer.ValidateRegister | internal/grpc/auth/server.go:121-131 | a registration request passes exactly when email and password are both non-empty; otherwise InvalidArgument naming email first, then password |
| AuthServer.ValidateIsAdmin | internal/grpc/auth/server.go:133-139 | an admin query is rejected exactly when user_id is zero, so negative ids pass |
| AuthServer.Server.Login | internal/grpc/auth/server.go:39-60 | an invalid request is answered with its validation error, fixed by the request alone; a valid one gets the service's token unchanged or the single Internal "internal error" status, whatever the service's error was |
| AuthServer.Server.Register | internal/grpc/auth/server.go:62-82 | an invalid request gets its validation error and leaves the store unchanged; a valid one gets Internal for a hashing failure or a duplicate email, the new id for a fresh email (the store gains that user), and user_id 0 when the store failed |
| AuthServer.Server.IsAdmin | internal/grpc/auth/server.go:84-103 | a zero user_id gets "user_id is required"; otherwise the service's flag unchanged, or Internal for any service error |
| Scenarios.RegisterThenLogin | tests/auth_register_login_test.go:23-62 | with one store behind all three capabilities, registering a fresh email and then logging in gives a positive id and a token whose claims, parsed with the app's secret at an instant before expiry, are that id, the email, the app id and now + tokenTTL; the new user is not an admin |
| Scenarios.RegisterTwice | internal/services/auth/auth.go:154-161 | registering one email twice succeeds once, answers the second attempt with Internal, and adds exactly one user to the store |

## Left out

- Logging: every `slog` call is a side effect only.
- The text of errors (`err.Error()`): the model keeps the sentinels' identity
  and the operation tags, not the messages. The storage package that defines
  the storage sentinels is not part of this model.
- `errors.Is` on errors with custom `Is` methods or several wrapped causes:
  the core builds only single `%w` chains.
- Request contexts: cancellation and deadlines are one of the opaque failures
  of a store call.
- Concurrency: uniqueness of emails under simultaneous registrations is left to
  the database's unique constraint; the model runs one call at a time.
- bcrypt: salting, the cost's effect on running time and one-wayness. The hash
  is a one-to-one digest tagged with the cost.
- Bcrypt.GenerateFromPassword: its failures other than an invalid cost, namely
  a password longer than 72 bytes and a failing random source, are the `fault`
  parameter, not computed from the password.
- Jwt.IssuedTokenParses: a token is refused under every key other than the
  app's secret, because keys are compared for equality. Real HMAC pads a short
  key with zero bytes and hashes a key longer than its block, so, for example,
  the secret followed by a NUL byte verifies the same signature.
- Bcrypt.CompareExactly: real bcrypt derives its key from at most the first 72
  bytes of the password, so a hash of a 72-byte password also accepts every
  longer password that starts with it. The model accepts only the password
  itself.
- JWT: the serialisation, the signature bytes and which HMAC variant signs. A
  token is its claims plus the key that signed it. `internal/lib/jwt` is not part of this model. Its
  claims and its use of the app secret are as the integration test reads them
  back.
- Jwt.Parse: the library treats an `exp` claim of 0 as absent and accepts the
  token at any time; the model compares 0 with the clock like any other expiry.
  Other registered claims (`iat`, `nbf`) are never set and are not modelled.
- The clock: `jwt.NewToken` reads the time itself. The model uses the `now`
  passed to `Login`.
- Integer widths: `app_id` is `int32` on the wire and `int` in the service.
  User ids are `int64`. `time.Duration` addition can overflow. The model uses
  unbounded integers throughout.
- SQL details: opening the database, prepared statements, and the misspelt
  `is_admmin` column name. The driver's failures are the `fault` parameters.
  A failure of `LastInsertId` after the insert is modelled as a failure before
  the insert, leaving the store unchanged.
- Admin flags are only read. No operation of the core sets them.
- Transport glue: gRPC registration (`Register`, internal/grpc/auth/server.go:35-37),
  protobuf types, and the nil-request behaviour of the generated getters.
- Process bootstrap and the test harness: `cmd/auth/main.go`,
  `internal/app/app.go`, `tests/suite/suite.go`.
