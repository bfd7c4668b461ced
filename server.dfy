/**
 * The RPC boundary (package grpc/auth): request validation and the three
 * handlers. A request that fails validation is answered with InvalidArgument
 * and never reaches the service; every error of the service is collapsed into
 * one Internal "internal error" status, so a caller cannot tell a wrong
 * password from an unknown email or from a store failure; a success carries
 * the service's value unchanged.
 *
 * Protobuf messages are modelled as records of their fields; the app id is
 * an `int` on both sides of the boundary.
 */
module AuthServer {
  import opened Results
  import opened Models
  import opened Bcrypt
  import opened Jwt
  import opened AuthService

  /** The gRPC status codes the boundary produces. */
  datatype Code = InvalidArgument | Internal

  datatype Status = Status(code: Code, message: string)

  const EmailRequired: Status := Status(InvalidArgument, "email is required")
  const PasswordRequired: Status := Status(InvalidArgument, "password is required")
  const AppIDRequired: Status := Status(InvalidArgument, "app_id is required")
  const UserIDRequired: Status := Status(InvalidArgument, "user_id is required")
  const InternalError: Status := Status(Internal, "internal error")

  datatype LoginRequest = LoginRequest(email: string, password: string, appID: int)
  datatype LoginResponse = LoginResponse(token: Token)
  datatype RegisterRequest = RegisterRequest(email: string, password: string)
  datatype RegisterResponse = RegisterResponse(userID: int)
  datatype IsAdminRequest = IsAdminRequest(userID: int)
  datatype IsAdminResponse = IsAdminResponse(isAdmin: bool)

  /** `validateLogin`: email, then password, then app id; the first missing
      field names the error. `None` is a nil error. */
  function ValidateLogin(req: LoginRequest): (err: Option<Status>)
    ensures err.None? <==> req.email != "" && req.password != "" && req.appID != 0
    ensures err.Some? ==> err.value.code == InvalidArgument
    ensures req.email == "" ==> err == Some(EmailRequired)
    ensures req.email != "" && req.password == "" ==> err == Some(PasswordRequired)
    ensures req.email != "" && req.password != "" && req.appID == 0 ==> err == Some(AppIDRequired)
  {
    if req.email == "" then Some(EmailRequired)
    else if req.password == "" then Some(PasswordRequired)
    else if req.appID == 0 then Some(AppIDRequired)
    else None
  }

  /** `validateRegister`: email, then password. */
  function ValidateRegister(req: RegisterRequest): (err: Option<Status>)
    ensures err.None? <==> req.email != "" && req.password != ""
    ensures err.Some? ==> err.value.code == InvalidArgument
    ensures req.email == "" ==> err == Some(EmailRequired)
    ensures req.email != "" && req.password == "" ==> err == Some(PasswordRequired)
  {
    if req.email == "" then Some(EmailRequired)
    else if req.password == "" then Some(PasswordRequired)
    else None
  }

  /** `validateIsAdmin`: only the zero id is rejected; negative ids pass. */
  function ValidateIsAdmin(req: IsAdminRequest): (err: Option<Status>)
    ensures err.None? <==> req.userID != 0
    ensures err.Some? ==> err == Some(UserIDRequired)
  {
    if req.userID == 0 then Some(UserIDRequired) else None
  }

  /** The handlers over one auth service. */
  class Server {
    const auth: Auth

    constructor (auth: Auth)
      ensures this.auth == auth
    {
      this.auth := auth;
    }

    /** The Login handler. The faults are those of the service call. */
    function Login(req: LoginRequest, now: int, userFault: Option<int>, appFault: Option<int>, signFault: Option<int>)
      : (r: Result<LoginResponse, Status>)
      reads auth.userProvider, auth.appProvider
      // a validation fault is answered from the request alone
      ensures ValidateLogin(req).Some? ==> r == Failure(ValidateLogin(req).value)
      ensures r.Failure? ==> (r.error.code == InvalidArgument <==> ValidateLogin(req).Some?)
      // a valid request gets the service's token or the one internal error
      ensures ValidateLogin(req).None? ==>
                var out := auth.Login(req.email, req.password, req.appID, now, userFault, appFault, signFault);
                && (r.Success? <==> out.Success?)
                && (r.Success? ==> r.value.token == out.value)
                && (r.Failure? ==> r.error == InternalError)
    {
      match ValidateLogin(req)
      case Some(err) => Failure(err)
      case None =>
        match auth.Login(req.email, req.password, req.appID, now, userFault, appFault, signFault)
        case Failure(_) => Failure(InternalError)
        case Success(token) => Success(LoginResponse(token))
    }

    /** The Register handler. */
    method Register(req: RegisterRequest, hashFault: Option<int>, saveFault: Option<int>)
      returns (r: Result<RegisterResponse, Status>)
      requires auth.userSaver.Valid()
      modifies auth.userSaver
      ensures auth.userSaver.Valid()
      // a validation fault is answered without calling the service
      ensures ValidateRegister(req).Some? ==> r == Failure(ValidateRegister(req).value) && unchanged(auth.userSaver)
      ensures r.Failure? ==> (r.error.code == InvalidArgument <==> ValidateRegister(req).Some?)
      ensures ValidateRegister(req).None? && r.Failure? ==> r.error == InternalError
      // the service's outcomes, as they reach the wire
      ensures ValidateRegister(req).None? && hashFault.Some? ==>
                r == Failure(InternalError) && unchanged(auth.userSaver)
      ensures ValidateRegister(req).None? && hashFault.None? && saveFault.Some? ==>
                r == Success(RegisterResponse(0)) && unchanged(auth.userSaver)
      ensures ValidateRegister(req).None? && hashFault.None? && saveFault.None? && req.email in old(auth.userSaver.users) ==>
                r == Failure(InternalError) && unchanged(auth.userSaver)
      ensures ValidateRegister(req).None? && hashFault.None? && saveFault.None? && req.email !in old(auth.userSaver.users) ==>
                && r == Success(RegisterResponse(old(auth.userSaver.nextId)))
                && auth.userSaver.users == old(auth.userSaver.users)[req.email :=
                     Models.User(old(auth.userSaver.nextId), req.email, PassHash(DefaultCost, Digest(req.password)))]
                && auth.userSaver.admins == old(auth.userSaver.admins)[old(auth.userSaver.nextId) := false]
                && auth.userSaver.apps == old(auth.userSaver.apps)
                && auth.userSaver.nextId == old(auth.userSaver.nextId) + 1
    {
      var err := ValidateRegister(req);
      if err.Some? {
        return Failure(err.value);
      }
      var out := auth.RegisterNewUser(req.email, req.password, hashFault, saveFault);
      match out
      case Failure(_) => r := Failure(InternalError);
      case Success(userID) => r := Success(RegisterResponse(userID));
    }

    /** The IsAdmin handler. */
    function IsAdmin(req: IsAdminRequest, fault: Option<int>): (r: Result<IsAdminResponse, Status>)
      reads auth.userProvider
      ensures ValidateIsAdmin(req).Some? ==> r == Failure(UserIDRequired)
      ensures r.Failure? ==> (r.error.code == InvalidArgument <==> ValidateIsAdmin(req).Some?)
      ensures ValidateIsAdmin(req).None? ==>
                var out := auth.IsAdmin(req.userID, fault);
                && (r.Success? <==> out.Success?)
                && (r.Success? ==> r.value.isAdmin == out.value)
                && (r.Failure? ==> r.error == InternalError)
    {
      match ValidateIsAdmin(req)
      case Some(err) => Failure(err)
      case None =>
        match auth.IsAdmin(req.userID, fault)
        case Failure(_) => Failure(InternalError)
        case Success(isAdmin) => Success(IsAdminResponse(isAdmin))
    }
  }
}
