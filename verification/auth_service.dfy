/**
 * internal/services/auth_service.go: registration, login, Google account
 * linking, token refresh, and the access/refresh token pair they return.
 * The JWT secret and expiry hours come from the configuration; the JWT
 * library, bcrypt, the drawn salt and identifier, and the current time are
 * parameters.
 */
module AuthService {
  import opened Wrappers
  import opened Hex
  import opened Uuids
  import opened Store
  import opened Errors
  import opened Crypto
  import opened UserModel
  import Jwt
  import Repo = UserRepository

  type Table = Repo.Table

  /** The two configuration values the tokens use. */
  datatype Config = Config(jwtSecret: string, expiryHours: int)

  datatype RegisterInput = RegisterInput(email: string, password: string, fullName: string)

  datatype LoginInput = LoginInput(email: string, password: string)

  datatype AuthResponse = AuthResponse(accessToken: string, refreshToken: string, expiresIn: int, user: UserResponse)

  const SecondsPerHour: int := 3600

  /** The refresh token lives seven access-token lifetimes. */
  const RefreshFactor: int := 7

  const AccessType: string := "access"
  const RefreshType: string := "refresh"

  /** Claims of the access token: subject, email, type `access`, issued now, expiring after the configured hours, no `nbf`. */
  function AccessClaims(u: User, cfg: Config, now: Time): (c: Jwt.Claims)
    ensures c.sub == Jwt.Str(ToString(u.id)) && c.email == Jwt.Str(u.email) && c.typ == Jwt.Str(AccessType)
    ensures c.iat == Jwt.At(now) && c.exp == Jwt.At(now + cfg.expiryHours * SecondsPerHour) && c.nbf == Jwt.NoDate
  {
    Jwt.Claims(Jwt.Str(ToString(u.id)), Jwt.Str(u.email), Jwt.Str(AccessType),
      Jwt.At(now + cfg.expiryHours * SecondsPerHour), Jwt.NoDate, Jwt.At(now))
  }

  /** Claims of the refresh token: subject, type `refresh`, no email, expiring after seven times the configured hours, no `nbf`. */
  function RefreshClaims(u: User, cfg: Config, now: Time): (c: Jwt.Claims)
    ensures c.sub == Jwt.Str(ToString(u.id)) && c.email == Jwt.Absent && c.typ == Jwt.Str(RefreshType)
    ensures c.iat == Jwt.At(now) && c.exp == Jwt.At(now + RefreshFactor * cfg.expiryHours * SecondsPerHour) && c.nbf == Jwt.NoDate
  {
    Jwt.Claims(Jwt.Str(ToString(u.id)), Jwt.Absent, Jwt.Str(RefreshType),
      Jwt.At(now + (cfg.expiryHours * RefreshFactor) * SecondsPerHour), Jwt.NoDate, Jwt.At(now))
  }

  /** `generateAuthResponse`: both tokens signed HS256 with the secret, `ExpiresIn` the access lifetime in seconds, and the user's safe view. */
  function GenerateAuthResponse(lib: Jwt.Library, cfg: Config, u: User, now: Time): (r: AuthResponse)
    ensures r.accessToken == Jwt.SignedString(lib, AccessClaims(u, cfg, now), cfg.jwtSecret)
    ensures r.refreshToken == Jwt.SignedString(lib, RefreshClaims(u, cfg, now), cfg.jwtSecret)
    ensures r.expiresIn == cfg.expiryHours * SecondsPerHour
    ensures r.user == ToResponse(u)
  {
    AuthResponse(
      Jwt.SignedString(lib, AccessClaims(u, cfg, now), cfg.jwtSecret),
      Jwt.SignedString(lib, RefreshClaims(u, cfg, now), cfg.jwtSecret),
      cfg.expiryHours * SecondsPerHour,
      ToResponse(u))
  }

  /** A user may have registered under this email: `EmailExists`, whose error reads as "no". */
  predicate EmailTaken(t: Table, email: string, faults: set<Call>) {
    Repo.EmailExists(t, email, EmailCount in faults)
  }

  /**
   * `Register`: a taken email is refused; otherwise the password is
   * bcrypt-hashed and a local user created. The plaintext password is not
   * stored.
   */
  function Register(t: Table, input: RegisterInput, c: Primitives, salt: seq<byte>, newId: Uuid, lib: Jwt.Library, cfg: Config, now: Time, faults: set<Call>): (r: Outcome<Table, AuthResponse>)
    requires Repo.Valid(t) && IsVersion4(newId)
    ensures Repo.Valid(r.state)
    ensures r.result.Err? ==> r.state == t
    ensures EmailTaken(t, input.email, faults) ==> r == Outcome(t, Err(EmailExists))
    ensures r.result.Err? && r.result.error == EmailExists ==> EmailTaken(t, input.email, faults)
    ensures !EmailTaken(t, input.email, faults) && c.bcryptHash(input.password, salt).None? ==> r.result == Err(HashFailure)
    ensures r.result.Ok? <==>
      && !EmailTaken(t, input.email, faults) && c.bcryptHash(input.password, salt).Some?
      && Create !in faults && newId !in t && !(exists id :: id in t && t[id].email == input.email)
    ensures r.result.Ok? ==>
      exists id: Uuid :: id !in t && id in r.state && r.state == t[id := r.state[id]]
        && var u := r.state[id];
        && u.email == input.email && u.fullName == input.fullName
        && u.provider == LocalProvider && u.providerId == "" && !u.isVerified && !u.deleted
        && c.bcryptHash(input.password, salt) == Some(u.passwordHash)
        && r.result.value == GenerateAuthResponse(lib, cfg, u, now)
  {
    if EmailTaken(t, input.email, faults) then Outcome(t, Err(EmailExists))
    else
      match c.bcryptHash(input.password, salt)
      case None => Outcome(t, Err(HashFailure))
      case Some(hash) =>
        var u := User(Nil, input.email, hash, input.fullName, "", "", "", "", "", LocalProvider, "", false, 0, 0, false);
        Enrol(t, u, newId, lib, cfg, now, faults)
  }

  /**
   * The insert that ends `Register` and the new-account branch of
   * `GoogleAuth`: it fails exactly when the call fails or a unique index (key
   * or email, deleted rows included) is taken; otherwise the new row is the
   * user with its identifier and timestamps, and it gets a token pair.
   */
  function Enrol(t: Table, u: User, newId: Uuid, lib: Jwt.Library, cfg: Config, now: Time, faults: set<Call>): (r: Outcome<Table, AuthResponse>)
    requires Repo.Valid(t) && IsVersion4(newId) && u.id == Nil
    ensures Repo.Valid(r.state)
    ensures r.result.Err? ==> r.state == t && r.result.error == DbFailure
    ensures r.result.Ok? <==> Create !in faults && newId !in t && !(exists id :: id in t && t[id].email == u.email)
    ensures r.result.Ok? ==>
      var s := Repo.Inserted(u, newId, now);
      && s.id == newId && r.state == t[newId := s]
      && r.result.value == GenerateAuthResponse(lib, cfg, s, now)
  {
    if Create in faults then Outcome(t, Err(DbFailure))
    else
      match Repo.Create(t, u, newId, now)
      case Err(e) => Outcome(t, Err(e))
      case Ok(t') =>
        var s := Repo.Inserted(u, newId, now);
        assert t' == t[s.id := s];
        Outcome(t', Ok(GenerateAuthResponse(lib, cfg, s, now)))
  }

  /**
   * `Login`: an unknown email and a wrong password give the same
   * `InvalidCredentials`; any other lookup error is passed on.
   */
  function Login(t: Table, input: LoginInput, c: Primitives, lib: Jwt.Library, cfg: Config, now: Time, faults: set<Call>): (r: Result<AuthResponse, Error>)
    requires Repo.Valid(t)
    ensures FindByEmail in faults ==> r == Err(DbFailure)
    ensures FindByEmail !in faults && Repo.FindByEmail(t, input.email).None? ==> r == Err(InvalidCredentials)
    ensures r.Ok? <==>
      && FindByEmail !in faults && Repo.FindByEmail(t, input.email).Some?
      && c.bcryptMatches(Repo.FindByEmail(t, input.email).value.passwordHash, input.password)
    ensures r.Ok? ==> r.value == GenerateAuthResponse(lib, cfg, Repo.FindByEmail(t, input.email).value, now)
    ensures r.Err? ==> r.error in {DbFailure, InvalidCredentials}
    ensures r.Err? && FindByEmail !in faults ==> r.error == InvalidCredentials
  {
    if FindByEmail in faults then Err(DbFailure)
    else
      match Repo.FindByEmail(t, input.email)
      case None => Err(InvalidCredentials)
      case Some(u) =>
        if !c.bcryptMatches(u.passwordHash, input.password) then Err(InvalidCredentials)
        else Ok(GenerateAuthResponse(lib, cfg, u, now))
  }

  /** With a sound bcrypt, the password a user registered with logs them in. */
  lemma RegisterThenLogin(t: Table, input: RegisterInput, c: Primitives, salt: seq<byte>, newId: Uuid, lib: Jwt.Library, cfg: Config, now: Time, later: Time)
    requires Repo.Valid(t) && IsVersion4(newId) && BcryptSound(c)
    requires Register(t, input, c, salt, newId, lib, cfg, now, {}).result.Ok?
    ensures Login(Register(t, input, c, salt, newId, lib, cfg, now, {}).state, LoginInput(input.email, input.password), c, lib, cfg, later, {}).Ok?
  {
    var t' := Register(t, input, c, salt, newId, lib, cfg, now, {}).state;
    var id: Uuid :| id !in t && id in t' && t' == t[id := t'[id]] && t'[id].email == input.email
      && c.bcryptHash(input.password, salt) == Some(t'[id].passwordHash);
    assert Repo.FindByEmail(t', input.email) == Some(t'[id]);
  }

  /**
   * `GoogleAuth`: an account already linked to this Google identity wins;
   * otherwise an account with the same email is relinked to Google;
   * otherwise a new verified Google account is created.
   */
  function GoogleAuth(t: Table, email: string, fullName: string, providerId: string, newId: Uuid, lib: Jwt.Library, cfg: Config, now: Time, faults: set<Call>): (r: Outcome<Table, AuthResponse>)
    requires Repo.Valid(t) && IsVersion4(newId)
    ensures Repo.Valid(r.state)
    ensures r.result.Err? ==> r.state == t
    ensures FindByProvider in faults ==> r == Outcome(t, Err(DbFailure))
    ensures FindByProvider !in faults && Repo.FindByProvider(t, GoogleProvider, providerId).Some? ==>
      r == Outcome(t, Ok(GenerateAuthResponse(lib, cfg, Repo.FindByProvider(t, GoogleProvider, providerId).value, now)))
    ensures FindByProvider !in faults && Repo.FindByProvider(t, GoogleProvider, providerId).None? && FindByEmail in faults ==>
      r == Outcome(t, Err(DbFailure))
    ensures FindByProvider !in faults && Repo.FindByProvider(t, GoogleProvider, providerId).None? &&
            FindByEmail !in faults && Repo.FindByEmail(t, email).Some? ==>
      (r.result.Ok? <==> Update !in faults)
    ensures FindByProvider !in faults && Repo.FindByProvider(t, GoogleProvider, providerId).None? &&
            FindByEmail !in faults && Repo.FindByEmail(t, email).None? ==>
      (r.result.Ok? <==> Create !in faults && newId !in t && !(exists id :: id in t && t[id].email == email))
    ensures FindByProvider !in faults && Repo.FindByProvider(t, GoogleProvider, providerId).None? &&
            FindByEmail !in faults && Repo.FindByEmail(t, email).Some? && r.result.Ok? ==>
      var e := Repo.FindByEmail(t, email).value;
      var linked := e.(provider := GoogleProvider, providerId := providerId, updatedAt := now);
      && r.state == t[e.id := linked]
      && r.result.value == GenerateAuthResponse(lib, cfg, linked, now)
    ensures FindByProvider !in faults && Repo.FindByProvider(t, GoogleProvider, providerId).None? &&
            FindByEmail !in faults && Repo.FindByEmail(t, email).None? && r.result.Ok? ==>
      exists id: Uuid :: id !in t && id in r.state && r.state == t[id := r.state[id]]
        && var u := r.state[id];
        && u.email == email && u.fullName == fullName && u.provider == GoogleProvider
        && u.providerId == providerId && u.isVerified && u.passwordHash == ""
        && r.result.value == GenerateAuthResponse(lib, cfg, u, now)
  {
    if FindByProvider in faults then Outcome(t, Err(DbFailure))
    else
      match Repo.FindByProvider(t, GoogleProvider, providerId)
      case Some(u) => Outcome(t, Ok(GenerateAuthResponse(lib, cfg, u, now)))
      case None =>
        if FindByEmail in faults then Outcome(t, Err(DbFailure))
        else
          match Repo.FindByEmail(t, email)
          case None => GoogleCreate(t, email, fullName, providerId, newId, lib, cfg, now, faults)
          case Some(e) => GoogleLink(t, e, providerId, lib, cfg, now, faults)
  }

  /** The branch of `GoogleAuth` for an unknown account and email: a new verified Google user without a password. */
  function GoogleCreate(t: Table, email: string, fullName: string, providerId: string, newId: Uuid, lib: Jwt.Library, cfg: Config, now: Time, faults: set<Call>): (r: Outcome<Table, AuthResponse>)
    requires Repo.Valid(t) && IsVersion4(newId)
    ensures Repo.Valid(r.state)
    ensures r.result.Err? ==> r.state == t && r.result.error == DbFailure
    ensures r.result.Ok? <==> Create !in faults && newId !in t && !(exists id :: id in t && t[id].email == email)
    ensures r.result.Ok? ==>
      exists id: Uuid :: id !in t && id in r.state && r.state == t[id := r.state[id]]
        && var u := r.state[id];
        && u.email == email && u.fullName == fullName && u.provider == GoogleProvider
        && u.providerId == providerId && u.isVerified && u.passwordHash == ""
        && r.result.value == GenerateAuthResponse(lib, cfg, u, now)
  {
    var u := User(Nil, email, "", fullName, "", "", "", "", "", GoogleProvider, providerId, true, 0, 0, false);
    Enrol(t, u, newId, lib, cfg, now, faults)
  }

  /** The branch of `GoogleAuth` for a live user with the email: the user is relinked to the Google account. */
  function GoogleLink(t: Table, e: User, providerId: string, lib: Jwt.Library, cfg: Config, now: Time, faults: set<Call>): (r: Outcome<Table, AuthResponse>)
    requires Repo.Valid(t) && e.id in t && t[e.id] == e
    ensures Repo.Valid(r.state)
    ensures r.result.Err? ==> r.state == t && r.result.error == DbFailure
    ensures r.result.Err? <==> Update in faults
    ensures r.result.Ok? ==>
      var linked := e.(provider := GoogleProvider, providerId := providerId, updatedAt := now);
      && r.state == t[e.id := linked]
      && r.result.value == GenerateAuthResponse(lib, cfg, linked, now)
  {
    var linked := e.(provider := GoogleProvider, providerId := providerId);
    if Update in faults then Outcome(t, Err(DbFailure))
    else
      match Repo.Save(t, linked, now)
      case Err(err) => Outcome(t, Err(err))
      case Ok(t') => Outcome(t', Ok(GenerateAuthResponse(lib, cfg, linked.(updatedAt := now), now)))
  }

  /**
   * `RefreshToken`: the token must parse and verify under the secret (with
   * a key function that accepts any signing method), carry the string type
   * `refresh` and a string subject that parses as a UUID naming a live user;
   * that user gets a fresh token pair.
   */
  function RefreshToken(t: Table, token: string, lib: Jwt.Library, cfg: Config, now: Time, faults: set<Call>): (r: Result<AuthResponse, Error>)
    requires Repo.Valid(t)
    ensures Jwt.Parse(lib, token, cfg.jwtSecret, now, Jwt.AnyMethod).Err? ==> r == Err(InvalidRefreshToken)
    ensures Jwt.Parse(lib, token, cfg.jwtSecret, now, Jwt.AnyMethod).Ok? && Jwt.Parse(lib, token, cfg.jwtSecret, now, Jwt.AnyMethod).value.typ != Jwt.Str(RefreshType) ==>
      r == Err(InvalidTokenType)
    ensures r.Ok? <==>
      && Jwt.Parse(lib, token, cfg.jwtSecret, now, Jwt.AnyMethod).Ok?
      && var claims := Jwt.Parse(lib, token, cfg.jwtSecret, now, Jwt.AnyMethod).value;
      && claims.typ == Jwt.Str(RefreshType) && claims.sub.Str? && Uuids.Parse(claims.sub.text).Some?
      && FindByID !in faults && Uuids.Parse(claims.sub.text).value in t && Repo.Live(t[Uuids.Parse(claims.sub.text).value])
    ensures r.Ok? ==>
      var id := Uuids.Parse(Jwt.Parse(lib, token, cfg.jwtSecret, now, Jwt.AnyMethod).value.sub.text).value;
      r.value == GenerateAuthResponse(lib, cfg, t[id], now)
    ensures r.Err? ==> r.error in {InvalidRefreshToken, InvalidTokenType, InvalidUserIdInToken, InvalidUserIdFormat, UserNotFound}
  {
    match Jwt.Parse(lib, token, cfg.jwtSecret, now, Jwt.AnyMethod)
    case Err(_) => Err(InvalidRefreshToken)
    case Ok(claims) =>
      if claims.typ != Jwt.Str(RefreshType) then Err(InvalidTokenType)
      else if !claims.sub.Str? then Err(InvalidUserIdInToken)
      else
        match Uuids.Parse(claims.sub.text)
        case None => Err(InvalidUserIdFormat)
        case Some(id) =>
          var found := if FindByID in faults then None else Repo.FindByID(t, id);
          match found
          case None => Err(UserNotFound)
          case Some(u) => Ok(GenerateAuthResponse(lib, cfg, u, now))
  }

  /**
   * Round trip: the refresh token issued to a live user is accepted by
   * `RefreshToken` at any time before it expires and yields a token pair
   * for the same user.
   */
  lemma RefreshRoundTrip(t: Table, id: Uuid, lib: Jwt.Library, cfg: Config, now: Time, later: Time, faults: set<Call>)
    requires Repo.Valid(t) && Jwt.Sound(lib) && id in t && Repo.Live(t[id]) && FindByID !in faults
    requires later < now + RefreshFactor * cfg.expiryHours * SecondsPerHour
    ensures RefreshToken(t, GenerateAuthResponse(lib, cfg, t[id], now).refreshToken, lib, cfg, later, faults)
         == Ok(GenerateAuthResponse(lib, cfg, t[id], later))
  {
    var claims := RefreshClaims(t[id], cfg, now);
    Jwt.SignedParses(lib, claims, cfg.jwtSecret, later, Jwt.AnyMethod);
    ParseToString(id);
    assert t[id].id == id;
  }

  /** An access token is never accepted as a refresh token. */
  lemma AccessTokenNotRefreshable(t: Table, u: User, lib: Jwt.Library, cfg: Config, now: Time, later: Time, faults: set<Call>)
    requires Repo.Valid(t) && Jwt.Sound(lib)
    ensures RefreshToken(t, GenerateAuthResponse(lib, cfg, u, now).accessToken, lib, cfg, later, faults).Err?
  {
    Jwt.SignedParses(lib, AccessClaims(u, cfg, now), cfg.jwtSecret, later, Jwt.AnyMethod);
  }

  /**
   * Although its key function accepts any signing method, `RefreshToken`
   * refuses every token whose method is not HMAC: `Verify` refuses the
   * byte-slice secret for all other methods.
   */
  lemma NonHmacNotRefreshable(t: Table, token: string, lib: Jwt.Library, cfg: Config, now: Time, faults: set<Call>)
    requires Repo.Valid(t) && Jwt.Sound(lib)
    requires lib.decode(token).Some? && !Jwt.IsHmac(lib.decode(token).value.alg)
    ensures RefreshToken(t, token, lib, cfg, now, faults) == Err(InvalidRefreshToken)
  {
  }

  /** The refresh token outlives the access token: at the instant the access token expires, the refresh token still has six lifetimes left. */
  lemma RefreshOutlivesAccess(u: User, cfg: Config, now: Time)
    requires cfg.expiryHours > 0
    ensures AccessClaims(u, cfg, now).exp.seconds < RefreshClaims(u, cfg, now).exp.seconds
    ensures RefreshClaims(u, cfg, now).exp.seconds - AccessClaims(u, cfg, now).exp.seconds == 6 * cfg.expiryHours * SecondsPerHour
  {
  }
}
