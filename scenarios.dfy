/**
 * The register-then-login integration test, stated as verified methods over
 * the model: one store serves all three capabilities, as the application
 * wires it.
 */
module Scenarios {
  import opened Results
  import opened Jwt
  import opened AuthService
  import opened AuthServer

  /** Register a fresh email, then log in with the same credentials at `now`:
      the token's claims, read back with the app's secret at any instant
      `parsedAt` before it expires, name the registered user and the app, and
      expire tokenTTL after the login. The new user is not an admin. */
  method RegisterThenLogin(server: Server, email: string, password: string, appID: int, now: int, parsedAt: int)
    returns (userID: int, token: Token)
    requires server.auth.userSaver == server.auth.userProvider == server.auth.appProvider
    requires server.auth.userSaver.Valid()
    requires email != "" && password != "" && appID != 0
    requires email !in server.auth.userSaver.users && appID in server.auth.userSaver.apps
    requires now <= parsedAt <= now + server.auth.tokenTTL
    modifies server.auth.userSaver
    ensures userID >= 1 && userID == old(server.auth.userSaver.nextId)
    ensures appID in server.auth.appProvider.apps
    ensures Parse(token, server.auth.appProvider.apps[appID].secret, parsedAt)
            == Some(Claims(userID, email, appID, ExpiresAt(now, server.auth.tokenTTL)))
    ensures server.IsAdmin(IsAdminRequest(userID), None) == Success(IsAdminResponse(false))
  {
    var reg := server.Register(RegisterRequest(email, password), None, None);
    userID := reg.value.userID;
    var login := server.Login(LoginRequest(email, password, appID), now, None, None, None);
    OnlyRegisteredPasswordLogsIn(server.auth, email, password, password, appID, now);
    token := login.value.token;
    ghost var user, app := server.auth.userProvider.users[email], server.auth.appProvider.apps[appID];
    IssuedTokenParses(user, app, server.auth.tokenTTL, now, app.secret, parsedAt);
  }

  /** Registering the same email twice: the second attempt fails with the
      internal status, and the store holds exactly one more user. */
  method RegisterTwice(server: Server, email: string, password: string, otherPassword: string)
    returns (first: Result<RegisterResponse, Status>, second: Result<RegisterResponse, Status>)
    requires server.auth.userSaver.Valid()
    requires email != "" && password != "" && otherPassword != ""
    requires email !in server.auth.userSaver.users
    modifies server.auth.userSaver
    ensures first.Success? && first.value.userID >= 1
    ensures second == Failure(InternalError)
    ensures |server.auth.userSaver.users| == |old(server.auth.userSaver.users)| + 1
  {
    first := server.Register(RegisterRequest(email, password), None, None);
    second := server.Register(RegisterRequest(email, otherPassword), None, None);
  }
}
