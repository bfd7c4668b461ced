/**
 * The authentication service (package services/auth): login, registration
 * and the admin check, as decisions over the credential store.
 *
 * `Login` and `IsAdmin` only read the store and are functions of its state;
 * `RegisterNewUser` writes it through `SaveUser` and is a method. Each maps
 * the store's sentinel errors onto the service's own (ErrInvalidCredentials,
 * ErrInvalidAppID, ErrUserExists) and wraps every error it returns with its
 * operation name. Logging is left out.
 */
module AuthService {
  import opened Results
  import opened Errors
  import opened Models
  import opened Bcrypt
  import opened Jwt
  import Sqlite

  const LoginOp: string := "auth.Login"
  const RegisterOp: string := "auth.RegisterNewUser"
  const IsAdminOp: string := "Auth.IsAdmin"

  /** The errors the service returns for a wrong email or password, a
      duplicate registration and a failed admin lookup: the sentinels
      ErrInvalidCredentials, ErrUserExists and ErrInvalidAppID, each wrapped
      with the operation's tag. */
  const LoginInvalidCredentials: Error := Wrapped(LoginOp, Sentinel(InvalidCredentials))
  const RegisterUserExists: Error := Wrapped(RegisterOp, Sentinel(UserExists))
  const IsAdminInvalidAppID: Error := Wrapped(IsAdminOp, Sentinel(InvalidAppID))

  /** The service and its collaborators, fixed at construction. The three
      capabilities may be one store or three. */
  class Auth {
    const userSaver: Sqlite.Storage
    const userProvider: Sqlite.Storage
    const appProvider: Sqlite.Storage
    /** Token lifetime in nanoseconds (a time.Duration). */
    const tokenTTL: int

    /** `New(log, userSaver, userProvider, appProvider, tokenTTL)`. */
    constructor New(userSaver: Sqlite.Storage, userProvider: Sqlite.Storage, appProvider: Sqlite.Storage, tokenTTL: int)
      ensures this.userSaver == userSaver && this.userProvider == userProvider
      ensures this.appProvider == appProvider && this.tokenTTL == tokenTTL
    {
      this.userSaver := userSaver;
      this.userProvider := userProvider;
      this.appProvider := appProvider;
      this.tokenTTL := tokenTTL;
    }

    /** `Login(ctx, email, password, appID)` at instant `now`: checks the
        credentials, then looks up the app, then issues a token. The faults
        are failures of the user lookup, the app lookup and the signing. */
    function Login(email: string, password: string, appID: int, now: int,
                   userFault: Option<int>, appFault: Option<int>, signFault: Option<int>): (r: Result<Token, Error>)
      reads userProvider, appProvider
      // the user lookup comes first; a miss is indistinguishable from a wrong password
      ensures userFault.None? && email !in userProvider.users ==> r == Failure(LoginInvalidCredentials)
      ensures userFault.Some? ==> r == Failure(Wrapped(LoginOp, Wrapped(Sqlite.UserOp, Foreign(userFault.value))))
      // then the password, whatever the app id
      ensures userFault.None? && email in userProvider.users
              && !CompareHashAndPassword(userProvider.users[email].passHash, password)
              ==> r == Failure(LoginInvalidCredentials)
      // only then the app lookup, whose error is passed on, not recoded
      ensures userFault.None? && email in userProvider.users
              && CompareHashAndPassword(userProvider.users[email].passHash, password)
              ==> (appFault.None? && appID !in appProvider.apps <==> r.Failure? && Is(r.error, StorageAppNotFound))
      // with good credentials, a failed app lookup or signing is passed on tagged
      ensures userFault.None? && email in userProvider.users
              && CompareHashAndPassword(userProvider.users[email].passHash, password)
              ==> && (appFault.Some? ==> r == Failure(Wrapped(LoginOp, Wrapped(Sqlite.AppOp, Foreign(appFault.value)))))
                  && (appFault.None? && appID !in appProvider.apps
                      ==> r == Failure(Wrapped(LoginOp, Wrapped(Sqlite.AppOp, Sentinel(StorageAppNotFound)))))
                  && (appFault.None? && appID in appProvider.apps && signFault.Some?
                      ==> r == Failure(Wrapped(LoginOp, Foreign(signFault.value))))
      ensures r.Failure? && Is(r.error, InvalidCredentials) <==>
                userFault.None? && (email !in userProvider.users
                                    || !CompareHashAndPassword(userProvider.users[email].passHash, password))
      ensures r.Failure? ==> !Is(r.error, InvalidAppID) && r.error.Wrapped? && r.error.op == LoginOp
      // success: a token for exactly the stored user and app, expiring tokenTTL after now
      ensures r.Success? <==>
                && userFault.None? && email in userProvider.users
                && CompareHashAndPassword(userProvider.users[email].passHash, password)
                && appFault.None? && appID in appProvider.apps
                && signFault.None?
      ensures r.Success? ==>
                && email in userProvider.users && appID in appProvider.apps
                && var user, app := userProvider.users[email], appProvider.apps[appID];
                   && r.value.claims == Claims(user.id, user.email, app.id, ExpiresAt(now, tokenTTL))
                   && r.value.signedWith == app.secret
    {
      match userProvider.User(email, userFault)
      case Failure(err) =>
        assert err.Wrapped? && (userFault.Some? ==> Root(err) == Foreign(userFault.value));
        if Is(err, StorageUserNotFound) then Failure(LoginInvalidCredentials)
        else Failure(Wrapped(LoginOp, err))
      case Success(user) =>
        if !CompareHashAndPassword(user.passHash, password) then Failure(LoginInvalidCredentials)
        else match appProvider.App(appID, appFault)
          case Failure(err) =>
            assert Root(err) == if appFault.Some? then Foreign(appFault.value) else Sentinel(StorageAppNotFound);
            Failure(Wrapped(LoginOp, err))
          case Success(app) =>
            match NewToken(user, app, tokenTTL, now, signFault)
            case Failure(err) => Failure(Wrapped(LoginOp, err))
            case Success(token) => Success(token)
    }

    /** `RegisterNewUser(ctx, email, password)`: hashes the password at the
        default cost and saves the user. A duplicate email is reported as
        ErrUserExists; any other failure of SaveUser is logged and dropped, and
        the call succeeds with the id the store returned (0). */
    method RegisterNewUser(email: string, password: string, hashFault: Option<int>, saveFault: Option<int>)
      returns (r: Result<int, Error>)
      requires userSaver.Valid()
      modifies userSaver
      ensures userSaver.Valid()
      ensures hashFault.Some? ==> r == Failure(Wrapped(RegisterOp, Foreign(hashFault.value))) && unchanged(userSaver)
      ensures hashFault.None? && saveFault.Some? ==> r == Success(0) && unchanged(userSaver)
      ensures hashFault.None? && saveFault.None? && email in old(userSaver.users) ==>
                r == Failure(RegisterUserExists) && unchanged(userSaver)
      ensures hashFault.None? && saveFault.None? && email !in old(userSaver.users) ==>
                && r == Success(old(userSaver.nextId))
                && r.value >= 1
                && (forall e :: e in old(userSaver.users) ==> old(userSaver.users)[e].id != r.value)
                && userSaver.users == old(userSaver.users)[email := Models.User(r.value, email, PassHash(DefaultCost, Digest(password)))]
                && userSaver.admins == old(userSaver.admins)[r.value := false]
                && userSaver.apps == old(userSaver.apps)
                && userSaver.nextId == old(userSaver.nextId) + 1
    {
      var hashed := GenerateFromPassword(password, DefaultCost, hashFault);
      if hashed.Failure? {
        return Failure(Wrapped(RegisterOp, hashed.error));
      }
      var userID, err := userSaver.SaveUser(email, hashed.value, saveFault);
      assert saveFault.Some? ==> Root(err.value) == Foreign(saveFault.value);
      if err.Some? && Is(err.value, StorageUserExists) {
        return Failure(RegisterUserExists);
      }
      r := Success(userID);
    }

    /** `IsAdmin(ctx, userID)`: the user's admin flag as stored. The store's
        not-found signal (storage.ErrAppNotFound) becomes ErrInvalidAppID. */
    function IsAdmin(userID: int, fault: Option<int>): (r: Result<bool, Error>)
      reads userProvider
      ensures r.Success? <==> fault.None? && userID in userProvider.admins
      ensures r.Success? ==> r.value == userProvider.admins[userID]
      ensures fault.None? && userID !in userProvider.admins ==>
                r == Failure(IsAdminInvalidAppID) && !Is(r.error, StorageAppNotFound)
      ensures fault.Some? ==> r == Failure(Wrapped(IsAdminOp, Wrapped(Sqlite.IsAdminOp, Foreign(fault.value))))
    {
      match userProvider.IsAdmin(userID, fault)
      case Failure(err) =>
        assert fault.Some? ==> Root(err) == Foreign(fault.value);
        if Is(err, StorageAppNotFound) then Failure(IsAdminInvalidAppID)
        else Failure(Wrapped(IsAdminOp, err))
      case Success(isAdmin) => Success(isAdmin)
    }
  }

  /** For a user stored with the hash of `password` (what RegisterNewUser
      saves) and an existing app, Login with no failing collaborator succeeds
      exactly for that password. Any other password is refused with
      ErrInvalidCredentials. The token carries the user's id and email, the
      requested app id and the expiry now + tokenTTL, and is signed with that
      app's secret. */
  lemma OnlyRegisteredPasswordLogsIn(auth: Auth, email: string, password: string, attempt: string,
                                    appID: int, now: int)
    requires auth.userProvider.Valid() && auth.appProvider.Valid()
    requires email in auth.userProvider.users
    requires auth.userProvider.users[email].passHash == PassHash(DefaultCost, Digest(password))
    requires appID in auth.appProvider.apps
    ensures var r := auth.Login(email, attempt, appID, now, None, None, None);
            && (r.Success? <==> attempt == password)
            && (r.Failure? ==> r.error == LoginInvalidCredentials)
            && (r.Success? ==>
                  && r.value.claims == Claims(auth.userProvider.users[email].id, email, appID, ExpiresAt(now, auth.tokenTTL))
                  && r.value.signedWith == auth.appProvider.apps[appID].secret)
  {
    CompareExactly(password, DefaultCost, attempt);
  }
}
