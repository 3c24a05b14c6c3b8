/**
 * How the tokens `generateAuthResponse` issues fare at the two places that
 * read them: the `JWTAuth` middleware and `RefreshToken`. Access and
 * refresh tokens are kept apart by their `type` claim alone.
 */
module Sessions {
  import opened Wrappers
  import opened Uuids
  import Text
  import Jwt
  import JwtAuth
  import opened UserModel
  import opened AuthService
  import Errors
  import Repo = UserRepository

  /** An unexpired access token, presented as `<any spelling of bearer> <token>`, lets the request through as its user. */
  lemma AccessTokenAuthenticates(lib: Jwt.Library, cfg: Config, u: User, now: int, later: int, scheme: string)
    requires Jwt.Sound(lib) && Text.ToLowerAscii(scheme) == JwtAuth.BearerScheme
    requires later < now + cfg.expiryHours * SecondsPerHour
    ensures JwtAuth.Authenticate(lib, cfg.jwtSecret, scheme + " " + GenerateAuthResponse(lib, cfg, u, now).accessToken, later)
         == JwtAuth.Next(u.id, Jwt.Str(u.email))
  {
    var token := GenerateAuthResponse(lib, cfg, u, now).accessToken;
    JwtAuth.BearerRoundTrip(scheme, token);
    Jwt.SignedParses(lib, AccessClaims(u, cfg, now), cfg.jwtSecret, later, Jwt.HmacOnly);
    ParseToString(u.id);
  }

  /**
   * From the instant its `exp` is reached, the access token is refused as
   * invalid or expired; an `exp` of exactly 0 is read as none, and that
   * token keeps passing.
   */
  lemma AccessTokenExpires(lib: Jwt.Library, cfg: Config, u: User, now: int, later: int, scheme: string)
    requires Jwt.Sound(lib) && Text.ToLowerAscii(scheme) == JwtAuth.BearerScheme
    requires later >= now + cfg.expiryHours * SecondsPerHour
    ensures now + cfg.expiryHours * SecondsPerHour != 0 ==>
      JwtAuth.Authenticate(lib, cfg.jwtSecret, scheme + " " + GenerateAuthResponse(lib, cfg, u, now).accessToken, later)
        == JwtAuth.Unauthorized(JwtAuth.InvalidOrExpiredToken)
    ensures now + cfg.expiryHours * SecondsPerHour == 0 ==>
      JwtAuth.Authenticate(lib, cfg.jwtSecret, scheme + " " + GenerateAuthResponse(lib, cfg, u, now).accessToken, later)
        == JwtAuth.Next(u.id, Jwt.Str(u.email))
  {
    var token := GenerateAuthResponse(lib, cfg, u, now).accessToken;
    JwtAuth.BearerRoundTrip(scheme, token);
    Jwt.SignedParses(lib, AccessClaims(u, cfg, now), cfg.jwtSecret, later, Jwt.HmacOnly);
    ParseToString(u.id);
  }

  /** A refresh token never passes the middleware: while valid (always, for an `exp` of 0) it has the wrong type, afterwards it is expired. */
  lemma RefreshTokenRejectedByMiddleware(lib: Jwt.Library, cfg: Config, u: User, now: int, later: int, scheme: string)
    requires Jwt.Sound(lib) && Text.ToLowerAscii(scheme) == JwtAuth.BearerScheme
    ensures var v := JwtAuth.Authenticate(lib, cfg.jwtSecret, scheme + " " + GenerateAuthResponse(lib, cfg, u, now).refreshToken, later);
      v == JwtAuth.Unauthorized(
        if later < now + RefreshFactor * cfg.expiryHours * SecondsPerHour || now + RefreshFactor * cfg.expiryHours * SecondsPerHour == 0
        then JwtAuth.InvalidTokenType else JwtAuth.InvalidOrExpiredToken)
  {
    var token := GenerateAuthResponse(lib, cfg, u, now).refreshToken;
    JwtAuth.BearerRoundTrip(scheme, token);
    Jwt.SignedParses(lib, RefreshClaims(u, cfg, now), cfg.jwtSecret, later, Jwt.HmacOnly);
  }

  /**
   * A token whose method is not HMAC is refused by both readers: the
   * middleware's key function stops it, and `RefreshToken`'s parse lets it
   * reach `Verify`, which refuses the byte-slice secret.
   */
  lemma NonHmacRefusedByBoth(t: Repo.Table, lib: Jwt.Library, cfg: Config, text: string, now: int, scheme: string, faults: set<Errors.Call>)
    requires Repo.Valid(t) && Jwt.Sound(lib)
    requires Text.ToLowerAscii(scheme) == JwtAuth.BearerScheme && ' ' !in text
    requires lib.decode(text).Some? && !Jwt.IsHmac(lib.decode(text).value.alg)
    ensures JwtAuth.Authenticate(lib, cfg.jwtSecret, scheme + " " + text, now) == JwtAuth.Unauthorized(JwtAuth.InvalidOrExpiredToken)
    ensures RefreshToken(t, text, lib, cfg, now, faults) == Err(Errors.InvalidRefreshToken)
  {
    JwtAuth.BearerRoundTrip(scheme, text);
    NonHmacNotRefreshable(t, text, lib, cfg, now, faults);
  }
}
