/**
 * internal/middleware/jwt_auth.go: the bearer-token gate in front of the
 * protected routes. The request either stops with 401 and a reason, or
 * continues to the next handler with the user ID and email stored in the
 * request's locals.
 */
module JwtAuth {
  import opened Wrappers
  import opened Uuids
  import Text
  import Jwt

  const StatusUnauthorized: int := 401

  const BearerScheme: string := "bearer"
  const AccessType: string := "access"

  /** Why a request was stopped; each has its own message in the 401 body. */
  datatype Denial =
    | MissingHeader
    | BadHeaderFormat
    | InvalidOrExpiredToken
    | InvalidTokenType
    | InvalidUserIdInToken
    | InvalidUserIdFormat

  /** The middleware's decision: stop with 401, or call the next handler with these locals. */
  datatype Verdict = Unauthorized(reason: Denial) | Next(userId: Uuid, email: Jwt.Claim)

  /**
   * The token of an `Authorization` header: splitting on single spaces must
   * give exactly two parts, the first `bearer` in any letter case.
   */
  function BearerToken(header: string): (r: Option<string>)
    ensures r.Some? <==> |Text.Split(header, ' ')| == 2 && Text.ToLowerAscii(Text.Split(header, ' ')[0]) == BearerScheme
    ensures r.Some? ==> ' ' !in r.value && header == Text.Split(header, ' ')[0] + " " + r.value
  {
    var parts := Text.Split(header, ' ');
    if |parts| != 2 || Text.ToLowerAscii(parts[0]) != BearerScheme then None
    else
      Text.JoinSplit(header, ' ');
      Some(parts[1])
  }

  /** Any spelling of `bearer`, one space and a space-free token yield exactly that token. */
  lemma BearerRoundTrip(scheme: string, token: string)
    requires Text.ToLowerAscii(scheme) == BearerScheme && ' ' !in token
    ensures BearerToken(scheme + " " + token) == Some(token)
  {
    assert ' ' !in scheme by {
      forall i | 0 <= i < |scheme|
        ensures scheme[i] != ' '
      {
        assert Text.ToLowerAscii(scheme)[i] == Text.LowerChar(scheme[i]);
      }
    }
    Text.SplitPair(scheme, token, ' ');
  }

  /** A header with no space, or with two or more spaces, is refused. */
  lemma SpacesMustBeOne(header: string)
    requires Text.Count(header, ' ') != 1
    ensures BearerToken(header).None?
  {
  }

  /**
   * `JWTAuth(secret)` applied to one request: the checks in source order,
   * the first failing one deciding the reason.
   */
  function Authenticate(lib: Jwt.Library, secret: string, header: string, now: int): (v: Verdict)
    ensures header == "" ==> v == Unauthorized(MissingHeader)
    ensures header != "" && BearerToken(header).None? ==> v == Unauthorized(BadHeaderFormat)
    ensures header != "" && BearerToken(header).Some? && Jwt.Parse(lib, BearerToken(header).value, secret, now, Jwt.HmacOnly).Err? ==>
      v == Unauthorized(InvalidOrExpiredToken)
    ensures v.Next? <==>
      && header != "" && BearerToken(header).Some?
      && Jwt.Parse(lib, BearerToken(header).value, secret, now, Jwt.HmacOnly).Ok?
      && var claims := Jwt.Parse(lib, BearerToken(header).value, secret, now, Jwt.HmacOnly).value;
      && claims.typ == Jwt.Str(AccessType) && claims.sub.Str? && Uuids.Parse(claims.sub.text).Some?
    ensures v.Next? ==>
      var claims := Jwt.Parse(lib, BearerToken(header).value, secret, now, Jwt.HmacOnly).value;
      v.userId == Uuids.Parse(claims.sub.text).value && v.email == claims.email
  {
    if header == "" then Unauthorized(MissingHeader)
    else
      match BearerToken(header)
      case None => Unauthorized(BadHeaderFormat)
      case Some(token) =>
        match Jwt.Parse(lib, token, secret, now, Jwt.HmacOnly)
        case Err(_) => Unauthorized(InvalidOrExpiredToken)
        case Ok(claims) =>
          if claims.typ != Jwt.Str(AccessType) then Unauthorized(InvalidTokenType)
          else if !claims.sub.Str? then Unauthorized(InvalidUserIdInToken)
          else
            match Uuids.Parse(claims.sub.text)
            case None => Unauthorized(InvalidUserIdFormat)
            case Some(id) => Next(id, claims.email)
  }

  /** The status the middleware answers with; `None` when the request goes on to the handler. */
  function Status(v: Verdict): (s: Option<int>)
    ensures s.Some? <==> v.Unauthorized?
    ensures s.Some? ==> s.value == StatusUnauthorized
  {
    if v.Unauthorized? then Some(StatusUnauthorized) else None
  }

  /** `GetUserID`: the stored user ID, or the nil UUID when none was stored. */
  function GetUserID(locals: Option<Uuid>): (id: Uuid)
    ensures locals.None? ==> id == Nil
    ensures locals.Some? ==> id == locals.value
  {
    match locals
    case None => Nil
    case Some(u) => u
  }

  /** Behind the middleware, `GetUserID` returns exactly the subject of the accepted token. */
  lemma HandlerSeesSubject(lib: Jwt.Library, secret: string, header: string, now: int)
    requires Authenticate(lib, secret, header, now).Next?
    ensures var claims := Jwt.Parse(lib, BearerToken(header).value, secret, now, Jwt.HmacOnly).value;
      GetUserID(Some(Authenticate(lib, secret, header, now).userId)) == Uuids.Parse(claims.sub.text).value
  {
  }
}
