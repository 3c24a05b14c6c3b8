/**
 * Session tokens as golang-jwt/jwt v5 handles them for this system: a claim
 * record signed under a named algorithm, its compact serialisation, and
 * `jwt.Parse` with a key function that returns the configured secret.
 * The serialisation and the signature primitive are injected; `Sound` states
 * what the library guarantees of them.
 */
module Jwt {
  import opened Wrappers

  /** A claim value as `jwt.MapClaims` holds it: missing, a JSON string, or a JSON value of another type. */
  datatype Claim = Absent | Str(text: string) | NonString

  /**
   * A registered date claim as it sits in the token's JSON: missing, an
   * integer number of Unix seconds, or a value of another type, which fails
   * claim validation.
   */
  datatype Date = NoDate | At(seconds: int) | NotNumeric

  /**
   * A date v5 enforces. `MapClaims.parseNumericDate` reads a JSON number 0
   * exactly as a missing claim, so `At(0)` is never checked.
   */
  predicate Enforced(d: Date) {
    d.At? && d.seconds != 0
  }

  /** The claims this system reads or writes; the three dates are Unix seconds. */
  datatype Claims = Claims(sub: Claim, email: Claim, typ: Claim, exp: Date, nbf: Date, iat: Date)

  /** A decoded token: the header's `alg`, the claims and the signature bytes. */
  datatype Token = Token(alg: string, claims: Claims, signature: seq<int>)

  datatype Library = Library(
    /** The compact `header.payload.signature` serialisation. */
    encode: Token -> string,
    /** Its inverse on well-formed text; `None` for anything that is not a token. */
    decode: string -> Option<Token>,
    /** The signature of `claims` under algorithm `alg` and `key`. */
    sign: (string, Claims, string) -> seq<int>,
    /** The signing method's `Verify` for this token and key. */
    verify: (Token, string) -> bool
  )

  /**
   * What golang-jwt guarantees: decoding undoes encoding, a compact token has
   * no space and is not empty, and an HS256 signature verifies under its own
   * key. Every key this system hands `Verify` is a byte slice, and the RSA,
   * RSA-PSS, ECDSA, EdDSA and `none` methods refuse a byte-slice key with
   * `ErrInvalidKeyType`, so only an HMAC method can verify.
   */
  ghost predicate Sound(lib: Library) {
    && (forall t :: lib.decode(lib.encode(t)) == Some(t))
    && (forall t :: |lib.encode(t)| > 0 && ' ' !in lib.encode(t))
    && (forall c, key :: lib.verify(Token(HS256, c, lib.sign(HS256, c, key)), key))
    && (forall t, key :: lib.verify(t, key) ==> IsHmac(t.alg))
  }

  const HS256: string := "HS256"

  /** The algorithms of `jwt.SigningMethodHMAC`. */
  predicate IsHmac(alg: string) {
    alg == "HS256" || alg == "HS384" || alg == "HS512"
  }

  /** Algorithm names golang-jwt has a signing method for; any other `alg` fails `jwt.Parse`. */
  predicate IsRegistered(alg: string) {
    || IsHmac(alg)
    || alg == "RS256" || alg == "RS384" || alg == "RS512"
    || alg == "PS256" || alg == "PS384" || alg == "PS512"
    || alg == "ES256" || alg == "ES384" || alg == "ES512"
    || alg == "EdDSA" || alg == "none"
  }

  /** `token.SignedString(key)` for an HS256 token. */
  function SignedString(lib: Library, claims: Claims, key: string): string {
    lib.encode(Token(HS256, claims, lib.sign(HS256, claims, key)))
  }

  /** The key function passed to `jwt.Parse`: the middleware's refuses non-HMAC methods, RefreshToken's accepts any. */
  datatype KeyFunc = AnyMethod | HmacOnly

  datatype Rejection = Malformed | UnavailableMethod | KeyFuncRefused | BadSignature | InvalidDate | Expired | NotYetValid

  /** `exp` is in the future; a token without `exp`, or with `exp` 0, never expires (v5 does not require the claim). */
  predicate Unexpired(c: Claims, now: int) {
    Enforced(c.exp) ==> now < c.exp.seconds
  }

  /** `nbf` has been reached; v5 checks it whenever the claim is present and not 0. */
  predicate Started(c: Claims, now: int) {
    Enforced(c.nbf) ==> c.nbf.seconds <= now
  }

  /** What v5's default `Validator` accepts: numeric `exp` and `nbf` when present, the instant between them. `iat` is not checked by default. */
  predicate ClaimsValid(c: Claims, now: int) {
    !c.exp.NotNumeric? && !c.nbf.NotNumeric? && Unexpired(c, now) && Started(c, now)
  }

  /**
   * The validator's verdict on the claims: `None` when they pass, otherwise
   * the first failing check (v5 joins all failures into one error).
   */
  function ClaimsCheck(c: Claims, now: int): (o: Option<Rejection>)
    ensures o.None? <==> ClaimsValid(c, now)
    ensures o.Some? ==> o.value in {InvalidDate, Expired, NotYetValid}
    ensures o == Some(Expired) <==> !c.exp.NotNumeric? && !c.nbf.NotNumeric? && !Unexpired(c, now)
    ensures o == Some(NotYetValid) <==> !c.exp.NotNumeric? && !c.nbf.NotNumeric? && Unexpired(c, now) && !Started(c, now)
  {
    if c.exp.NotNumeric? || c.nbf.NotNumeric? then Some(InvalidDate)
    else if !Unexpired(c, now) then Some(Expired)
    else if !Started(c, now) then Some(NotYetValid)
    else None
  }

  /**
   * `jwt.Parse(text, keyFunc)` followed by `token.Valid`: decode, look up the
   * signing method, run the key function, verify the signature, then
   * validate the date claims.
   */
  function Parse(lib: Library, text: string, key: string, now: int, kf: KeyFunc): (r: Result<Claims, Rejection>)
    ensures r.Ok? <==>
      && lib.decode(text).Some?
      && IsRegistered(lib.decode(text).value.alg)
      && (kf == HmacOnly ==> IsHmac(lib.decode(text).value.alg))
      && lib.verify(lib.decode(text).value, key)
      && ClaimsValid(lib.decode(text).value.claims, now)
    ensures r.Ok? ==> r.value == lib.decode(text).value.claims
  {
    match lib.decode(text)
    case None => Err(Malformed)
    case Some(t) =>
      if !IsRegistered(t.alg) then Err(UnavailableMethod)
      else if kf == HmacOnly && !IsHmac(t.alg) then Err(KeyFuncRefused)
      else if !lib.verify(t, key) then Err(BadSignature)
      else
        match ClaimsCheck(t.claims, now)
        case Some(e) => Err(e)
        case None => Ok(t.claims)
  }

  /** A token this system signs parses back to its claims, under either key function, exactly while the validator accepts them. */
  lemma SignedParses(lib: Library, claims: Claims, key: string, now: int, kf: KeyFunc)
    requires Sound(lib)
    ensures Parse(lib, SignedString(lib, claims, key), key, now, kf) ==
            (if ClaimsValid(claims, now) then Ok(claims) else Err(ClaimsCheck(claims, now).value))
  {
    var t := Token(HS256, claims, lib.sign(HS256, claims, key));
    assert lib.decode(lib.encode(t)) == Some(t);
    assert lib.verify(t, key);
  }

  /** The boundary of an enforced `exp`: accepted one second before (unless `nbf` is later), rejected at and after. */
  lemma ExpiryBoundary(lib: Library, claims: Claims, key: string, kf: KeyFunc)
    requires Sound(lib) && Enforced(claims.exp) && !claims.nbf.NotNumeric?
    ensures Started(claims, claims.exp.seconds - 1) ==> Parse(lib, SignedString(lib, claims, key), key, claims.exp.seconds - 1, kf) == Ok(claims)
    ensures Parse(lib, SignedString(lib, claims, key), key, claims.exp.seconds, kf) == Err(Expired)
    ensures Parse(lib, SignedString(lib, claims, key), key, claims.exp.seconds + 1, kf) == Err(Expired)
  {
    SignedParses(lib, claims, key, claims.exp.seconds - 1, kf);
    SignedParses(lib, claims, key, claims.exp.seconds, kf);
    SignedParses(lib, claims, key, claims.exp.seconds + 1, kf);
  }

  /** The `nbf` boundary: refused one second before, accepted from that instant while unexpired. */
  lemma NotBeforeBoundary(lib: Library, claims: Claims, key: string, kf: KeyFunc)
    requires Sound(lib) && Enforced(claims.nbf) && !claims.exp.NotNumeric? && Unexpired(claims, claims.nbf.seconds)
    ensures Parse(lib, SignedString(lib, claims, key), key, claims.nbf.seconds - 1, kf) == Err(NotYetValid)
    ensures Parse(lib, SignedString(lib, claims, key), key, claims.nbf.seconds, kf) == Ok(claims)
  {
    SignedParses(lib, claims, key, claims.nbf.seconds - 1, kf);
    SignedParses(lib, claims, key, claims.nbf.seconds, kf);
  }

  /**
   * A date of 0 is no date: at every instant the validator gives the same
   * verdict as for the claims without it, so a token whose `exp` is 0 never
   * expires and one whose `nbf` is 0 is never early.
   */
  lemma ZeroDateIsAbsent(c: Claims, now: int)
    ensures ClaimsCheck(c.(exp := At(0)), now) == ClaimsCheck(c.(exp := NoDate), now)
    ensures ClaimsCheck(c.(nbf := At(0)), now) == ClaimsCheck(c.(nbf := NoDate), now)
    ensures !c.exp.NotNumeric? && Unexpired(c, now) ==> ClaimsCheck(c.(nbf := At(0)), now).None?
    ensures !c.nbf.NotNumeric? && Started(c, now) ==> ClaimsCheck(c.(exp := At(0)), now).None?
  {
  }

  /**
   * The two key functions differ only in how they refuse: the HMAC-only one
   * stops a non-HMAC token in the key function, the permissive one lets it
   * reach `Verify`, which refuses the byte-slice key. Either way the token
   * fails, and both accept exactly the same tokens.
   */
  lemma KeyFuncsAgree(lib: Library, text: string, key: string, now: int)
    requires Sound(lib)
    ensures Parse(lib, text, key, now, AnyMethod).Ok? <==> Parse(lib, text, key, now, HmacOnly).Ok?
    ensures Parse(lib, text, key, now, AnyMethod).Ok? ==> Parse(lib, text, key, now, AnyMethod) == Parse(lib, text, key, now, HmacOnly)
    ensures lib.decode(text).Some? && IsRegistered(lib.decode(text).value.alg) && !IsHmac(lib.decode(text).value.alg) ==>
      Parse(lib, text, key, now, AnyMethod) == Err(BadSignature) && Parse(lib, text, key, now, HmacOnly) == Err(KeyFuncRefused)
  {
  }
}
