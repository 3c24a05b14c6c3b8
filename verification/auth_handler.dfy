/**
 * The authentication endpoints: the request checks made before the service
 * is called and the mapping of its errors to HTTP statuses. These endpoints
 * sit in front of the JWT middleware, so there is no caller identity.
 */
module AuthHandler {
  import opened Wrappers
  import opened Hex
  import opened Uuids
  import opened Store
  import opened Errors
  import opened Crypto
  import opened Http
  import opened UserModel
  import Jwt
  import Repo = UserRepository
  import Svc = AuthService

  type Table = Repo.Table

  /** The shortest password `Register` accepts, in bytes. */
  const MinPasswordLength: nat := 8

  /** The checks `Register` makes before calling the service: a parsed body, all three fields present, a long enough password. */
  predicate RegisterAdmitted(body: Option<Svc.RegisterInput>) {
    && body.Some?
    && body.value.email != "" && body.value.password != "" && body.value.fullName != ""
    && |body.value.password| >= MinPasswordLength
  }

  /** `Register`: 400 for a request that fails the checks; a taken email gives 409, any other failure 500, success 201 with the token pair. */
  function Register(t: Table, body: Option<Svc.RegisterInput>, c: Primitives, salt: seq<byte>, newId: Uuid, lib: Jwt.Library, cfg: Svc.Config, now: Time, faults: set<Call>): (r: Exchange<Table, Svc.AuthResponse>)
    requires Repo.Valid(t) && IsVersion4(newId)
    ensures Repo.Valid(r.state)
    ensures r.reply.status in {Created, BadRequest, Conflict, InternalServerError}
    ensures r.reply.status != Created ==> r.state == t && r.reply.body.None?
    ensures r.reply.status == BadRequest <==> !RegisterAdmitted(body)
    ensures r.reply.status == Conflict <==> RegisterAdmitted(body) && Svc.EmailTaken(t, body.value.email, faults)
    ensures r.reply.status == Created <==>
      && RegisterAdmitted(body) && !Svc.EmailTaken(t, body.value.email, faults)
      && c.bcryptHash(body.value.password, salt).Some?
      && Create !in faults && newId !in t && !(exists id :: id in t && t[id].email == body.value.email)
    ensures r.reply.status == Created ==>
      exists id: Uuid :: id !in t && id in r.state && r.state == t[id := r.state[id]]
        && r.state[id].email == body.value.email && r.state[id].fullName == body.value.fullName
        && r.state[id].provider == LocalProvider
        && r.reply.body == Some(Svc.GenerateAuthResponse(lib, cfg, r.state[id], now))
  {
    if !RegisterAdmitted(body) then Exchange(t, Fail(BadRequest))
    else
      var o := Svc.Register(t, body.value, c, salt, newId, lib, cfg, now, faults);
      match o.result
      case Err(e) => Exchange(t, Fail(if e == EmailExists then Conflict else InternalServerError))
      case Ok(resp) => Exchange(o.state, Send(Created, resp))
  }

  /** The checks `Login` makes before calling the service: a parsed body with an email and a password. */
  predicate LoginAdmitted(body: Option<Svc.LoginInput>) {
    body.Some? && body.value.email != "" && body.value.password != ""
  }

  /** `Login`: 400 for a request that fails the checks; an unknown email or a wrong password gives 401, a storage error 500, success 200. */
  function Login(t: Table, body: Option<Svc.LoginInput>, c: Primitives, lib: Jwt.Library, cfg: Svc.Config, now: Time, faults: set<Call>): (r: Reply<Svc.AuthResponse>)
    requires Repo.Valid(t)
    ensures r.status in {OK, BadRequest, Unauthorized, InternalServerError}
    ensures r.status != OK ==> r.body.None?
    ensures r.status == BadRequest <==> !LoginAdmitted(body)
    ensures r.status == InternalServerError <==> LoginAdmitted(body) && FindByEmail in faults
    ensures r.status == OK <==>
      && LoginAdmitted(body) && FindByEmail !in faults && Repo.FindByEmail(t, body.value.email).Some?
      && c.bcryptMatches(Repo.FindByEmail(t, body.value.email).value.passwordHash, body.value.password)
    ensures r.status == OK ==> r.body == Some(Svc.GenerateAuthResponse(lib, cfg, Repo.FindByEmail(t, body.value.email).value, now))
  {
    if !LoginAdmitted(body) then Fail(BadRequest)
    else
      match Svc.Login(t, body.value, c, lib, cfg, now, faults)
      case Err(e) => Fail(if e == InvalidCredentials then Unauthorized else InternalServerError)
      case Ok(resp) => Send(OK, resp)
  }

  /** `RefreshToken`: 400 for a missing token; every service error, whatever its cause, gives 401; success 200 with a fresh pair. */
  function RefreshToken(t: Table, body: Option<string>, lib: Jwt.Library, cfg: Svc.Config, now: Time, faults: set<Call>): (r: Reply<Svc.AuthResponse>)
    requires Repo.Valid(t)
    ensures r.status in {OK, BadRequest, Unauthorized}
    ensures r.status != OK ==> r.body.None?
    ensures r.status == BadRequest <==> body.None? || body.value == ""
    ensures r.status == OK <==> body.Some? && body.value != "" && Svc.RefreshToken(t, body.value, lib, cfg, now, faults).Ok?
    ensures r.status == OK ==> r.body == Some(Svc.RefreshToken(t, body.value, lib, cfg, now, faults).value)
  {
    if body.None? || body.value == "" then Fail(BadRequest)
    else
      match Svc.RefreshToken(t, body.value, lib, cfg, now, faults)
      case Err(_) => Fail(Unauthorized)
      case Ok(resp) => Send(OK, resp)
  }

  /** A password shorter than eight bytes is refused with 400 and nothing is written. */
  lemma ShortPasswordRefused(t: Table, input: Svc.RegisterInput, c: Primitives, salt: seq<byte>, newId: Uuid, lib: Jwt.Library, cfg: Svc.Config, now: Time, faults: set<Call>)
    requires Repo.Valid(t) && IsVersion4(newId) && |input.password| < MinPasswordLength
    ensures Register(t, Some(input), c, salt, newId, lib, cfg, now, faults) == Exchange(t, Fail(BadRequest))
  {
  }

  /**
   * A soft-deleted user's email is not reported as taken, yet the unique
   * index on `email` still covers the deleted row, so registering that email
   * again fails in the insert: 500, not 409.
   */
  lemma DeletedUsersEmailGives500(t: Table, input: Svc.RegisterInput, c: Primitives, salt: seq<byte>, newId: Uuid, lib: Jwt.Library, cfg: Svc.Config, now: Time, id: Uuid)
    requires Repo.Valid(t) && IsVersion4(newId) && RegisterAdmitted(Some(input))
    requires id in t && t[id].deleted && t[id].email == input.email
    requires c.bcryptHash(input.password, salt).Some?
    ensures Register(t, Some(input), c, salt, newId, lib, cfg, now, {}) == Exchange(t, Fail(InternalServerError))
  {
    assert !Svc.EmailTaken(t, input.email, {});
  }

  /** Presenting the access token of a token pair at the refresh endpoint gives 401. */
  lemma AccessTokenGets401(t: Table, u: User, lib: Jwt.Library, cfg: Svc.Config, now: Time, later: Time, faults: set<Call>)
    requires Repo.Valid(t) && Jwt.Sound(lib)
    ensures RefreshToken(t, Some(Svc.GenerateAuthResponse(lib, cfg, u, now).accessToken), lib, cfg, later, faults).status == Unauthorized
  {
    Svc.AccessTokenNotRefreshable(t, u, lib, cfg, now, later, faults);
  }

  /** The refresh token issued to a live user is answered with 200 and a fresh pair for that user until it expires. */
  lemma RefreshTokenGets200(t: Table, id: Uuid, lib: Jwt.Library, cfg: Svc.Config, now: Time, later: Time, faults: set<Call>)
    requires Repo.Valid(t) && Jwt.Sound(lib) && id in t && Repo.Live(t[id]) && FindByID !in faults
    requires later < now + Svc.RefreshFactor * cfg.expiryHours * Svc.SecondsPerHour
    ensures RefreshToken(t, Some(Svc.GenerateAuthResponse(lib, cfg, t[id], now).refreshToken), lib, cfg, later, faults)
         == Send(OK, Svc.GenerateAuthResponse(lib, cfg, t[id], later))
  {
    Svc.RefreshRoundTrip(t, id, lib, cfg, now, later, faults);
  }
}
