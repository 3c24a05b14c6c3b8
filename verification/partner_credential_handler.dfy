/**
 * The partner-credential endpoints: the request checks made before the
 * service is called and the mapping of its errors to HTTP statuses. The
 * caller is the user the JWT middleware stored (`GetUserID`); a body is
 * `None` when it could not be parsed; a path `id` is parsed as a UUID before
 * anything else.
 */
module PartnerCredentialHandler {
  import opened Wrappers
  import opened Hex
  import opened Uuids
  import opened Store
  import opened Errors
  import opened Crypto
  import opened Http
  import opened PartnerCredentialModel
  import Repo = PartnerCredentialRepository
  import Svc = PartnerCredentialService

  type Table = Repo.Table

  /** The environments a create or update request may name; the empty one leaves the choice to the service. */
  predicate EnvironmentAccepted(env: string) {
    env == "" || env == "sandbox" || env == "production"
  }

  /** `ListCredentials`: a storage error gives 500; otherwise 200 with each of the caller's active credentials once, newest first. */
  method ListCredentials(t: Table, owner: Uuid, faults: set<Call>) returns (r: Reply<seq<PartnerCredentialResponse>>)
    requires Repo.Valid(t)
    ensures r.status == OK || r.status == InternalServerError
    ensures r.status == InternalServerError <==> FindByUserID in faults
    ensures r.status == OK ==> r.body.Some?
    ensures r.status == OK ==> forall i :: 0 <= i < |r.body.value| ==> Svc.Listed(t, owner, r.body.value[i])
    ensures r.status == OK ==> forall id :: id in t && Repo.Live(t[id]) && t[id].userId == owner && t[id].isActive ==> ToResponse(t[id]) in r.body.value
    ensures r.status == OK ==> |r.body.value| == Repo.CountByUserID(t, owner)
    ensures r.status == OK ==> forall i, j :: 0 <= i < j < |r.body.value| ==> r.body.value[i].id != r.body.value[j].id
    ensures r.status == OK ==> forall i, j :: 0 <= i < j < |r.body.value| ==> r.body.value[i].createdAt >= r.body.value[j].createdAt
  {
    var listed := Svc.ListCredentials(t, owner, faults);
    if listed.Err? {
      return Fail(InternalServerError);
    }
    return Send(OK, listed.value);
  }

  /**
   * `GetCredential`: 400 for a malformed id. The service reports every
   * failure, a storage error included, as not found, so this endpoint never
   * answers 500.
   */
  function GetCredential(t: Table, owner: Uuid, idParam: string, faults: set<Call>): (r: Reply<DetailResponse>)
    requires Repo.Valid(t)
    ensures r.status in {OK, BadRequest, NotFound}
    ensures r.status == BadRequest <==> Uuids.Parse(idParam).None?
    ensures r.status == OK <==>
      && Uuids.Parse(idParam).Some? && FindByIDAndUserID !in faults
      && var id := Uuids.Parse(idParam).value; id in t && Repo.Live(t[id]) && t[id].userId == owner
    ensures r.status == OK ==> r.body == Some(ToDetailResponse(t[Uuids.Parse(idParam).value]))
    ensures r.status != OK ==> r.body.None?
  {
    match Uuids.Parse(idParam)
    case None => Fail(BadRequest)
    case Some(id) =>
      match Svc.GetCredential(t, id, owner, faults)
      case Err(e) => Fail(if e == CredentialNotFound then NotFound else InternalServerError)
      case Ok(detail) => Send(OK, detail)
  }

  /** The checks `CreateCredential` makes before calling the service: a parsed body, a partner name, an accepted environment. */
  predicate CreateAdmitted(body: Option<Svc.CreateInput>) {
    body.Some? && body.value.partnerName != "" && EnvironmentAccepted(body.value.environment)
  }

  /** The status of a failed creation: the quota gives 409, a bad public key 400, anything else 500. */
  function CreateFailureStatus(e: Error): (s: int)
    ensures s in {Conflict, BadRequest, InternalServerError}
    ensures s == Conflict <==> e == MaxCredentialsReached
    ensures s == BadRequest <==> e == InvalidPublicKey
  {
    if e == MaxCredentialsReached then Conflict
    else if e == InvalidPublicKey then BadRequest
    else InternalServerError
  }

  /**
   * `CreateCredential`: 400 for a request that fails the checks, with the
   * table untouched; otherwise the service's outcome, 201 on success. The
   * stored environment is always one of the two the system knows.
   */
  function CreateCredential(t: Table, owner: Uuid, body: Option<Svc.CreateInput>, c: Primitives, d: Svc.Draws, now: Time, faults: set<Call>): (r: Exchange<Table, CreateResponse>)
    requires Repo.Valid(t) && Svc.Shaped(d)
    ensures Repo.Valid(r.state)
    ensures r.reply.status in {Created, BadRequest, Conflict, InternalServerError}
    ensures r.reply.status != Created ==> r.state == t && r.reply.body.None?
    ensures !CreateAdmitted(body) ==> r.reply.status == BadRequest
    ensures r.reply.status == Conflict <==>
      CreateAdmitted(body) && CountByUserID !in faults && Repo.CountByUserID(t, owner) >= Svc.MaxCredentials
    ensures r.reply.status == BadRequest ==>
      !CreateAdmitted(body) || (body.value.publicKey != "" && ValidatePublicKey(c, body.value.publicKey).Err?)
    ensures r.reply.status == BadRequest <==>
      !CreateAdmitted(body) || Svc.Prepare(t, owner, body.value, c, d, now, faults) == Err(InvalidPublicKey)
    ensures r.reply.status == Created <==> CreateAdmitted(body) && Svc.CreateCredential(t, owner, body.value, c, d, now, faults).result.Ok?
    ensures r.reply.status == Created ==>
      && r.state == Svc.CreateCredential(t, owner, body.value, c, d, now, faults).state
      && r.reply.body == Some(Svc.CreateCredential(t, owner, body.value, c, d, now, faults).result.value)
    ensures r.reply.status == Created ==>
      var id := r.reply.body.value.base.id;
      && id !in t && id in r.state && r.state[id].userId == owner && r.state[id].partnerName != ""
      && (r.state[id].environment == "sandbox" || r.state[id].environment == "production")
  {
    if !CreateAdmitted(body) then Exchange(t, Fail(BadRequest))
    else
      var o := Svc.CreateCredential(t, owner, body.value, c, d, now, faults);
      match o.result
      case Err(e) => Exchange(t, Fail(CreateFailureStatus(e)))
      case Ok(resp) => Exchange(o.state, Send(Created, resp))
  }

  /** The checks `UpdateCredential` makes before calling the service: a UUID path id, a parsed body, an accepted environment. */
  predicate UpdateAdmitted(idParam: string, body: Option<Svc.UpdateInput>) {
    Uuids.Parse(idParam).Some? && body.Some? && EnvironmentAccepted(body.value.environment)
  }

  /** `UpdateCredential`: 400 for a request that fails the checks, 404 for a credential the caller does not own, 500 for a failed write. */
  function UpdateCredential(t: Table, owner: Uuid, idParam: string, body: Option<Svc.UpdateInput>, now: Time, faults: set<Call>): (r: Exchange<Table, PartnerCredentialResponse>)
    requires Repo.Valid(t)
    ensures Repo.Valid(r.state)
    ensures r.reply.status in {OK, BadRequest, NotFound, InternalServerError}
    ensures r.reply.status != OK ==> r.state == t && r.reply.body.None?
    ensures r.reply.status == BadRequest <==> !UpdateAdmitted(idParam, body)
    ensures r.reply.status == NotFound <==>
      UpdateAdmitted(idParam, body) && Svc.Lookup(t, Uuids.Parse(idParam).value, owner, faults).None?
    ensures r.reply.status == InternalServerError <==>
      UpdateAdmitted(idParam, body) && Svc.Lookup(t, Uuids.Parse(idParam).value, owner, faults).Some? && Update in faults
    ensures r.reply.status == OK ==>
      var id := Uuids.Parse(idParam).value;
      && id in t && r.state == t[id := Svc.Merge(t[id], body.value).(updatedAt := now)]
      && r.reply.body == Some(ToResponse(Svc.Merge(t[id], body.value)))
  {
    if !UpdateAdmitted(idParam, body) then Exchange(t, Fail(BadRequest))
    else
      var o := Svc.UpdateCredential(t, Uuids.Parse(idParam).value, owner, body.value, now, faults);
      match o.result
      case Err(e) => Exchange(t, Fail(if e == CredentialNotFound then NotFound else InternalServerError))
      case Ok(resp) => Exchange(o.state, Send(OK, resp))
  }

  /** The checks `UpdatePublicKey` makes before calling the service: a UUID path id, a parsed body, a non-empty key. */
  predicate KeyUpdateAdmitted(idParam: string, body: Option<string>) {
    Uuids.Parse(idParam).Some? && body.Some? && body.value != ""
  }

  /**
   * `UpdatePublicKey`: the body is the new PEM key. The empty key is refused
   * here with 400, so the service's handling of an empty key (clearing the
   * key and fingerprint) is never reached over HTTP: a successful update
   * always stores a non-empty, validated key.
   */
  function UpdatePublicKey(t: Table, owner: Uuid, idParam: string, body: Option<string>, c: Primitives, now: Time, faults: set<Call>): (r: Exchange<Table, PartnerCredentialResponse>)
    requires Repo.Valid(t)
    ensures Repo.Valid(r.state)
    ensures r.reply.status in {OK, BadRequest, NotFound, InternalServerError}
    ensures r.reply.status != OK ==> r.state == t && r.reply.body.None?
    ensures r.reply.status == NotFound <==>
      KeyUpdateAdmitted(idParam, body) && Svc.Lookup(t, Uuids.Parse(idParam).value, owner, faults).None?
    ensures r.reply.status == BadRequest <==>
      || !KeyUpdateAdmitted(idParam, body)
      || (Svc.Lookup(t, Uuids.Parse(idParam).value, owner, faults).Some? && ValidatePublicKey(c, body.value).Err?)
    ensures r.reply.status == InternalServerError ==> Call.UpdatePublicKey in faults
    ensures r.reply.status == InternalServerError <==>
      && KeyUpdateAdmitted(idParam, body) && Svc.Lookup(t, Uuids.Parse(idParam).value, owner, faults).Some?
      && ValidatePublicKey(c, body.value).Ok? && Call.UpdatePublicKey in faults
    ensures r.reply.status == OK ==>
      var id := Uuids.Parse(idParam).value;
      && id in t && id in r.state && r.state[id].publicKey == body.value && r.state[id].publicKey != ""
      && Ok(r.state[id].publicKeyFingerprint) == ValidatePublicKey(c, body.value)
      && r.state[id].publicKeyAddedAt == Some(now)
      && r.reply.body == Some(ToResponse(r.state[id]))
  {
    if !KeyUpdateAdmitted(idParam, body) then Exchange(t, Fail(BadRequest))
    else
      var o := Svc.UpdatePublicKey(t, Uuids.Parse(idParam).value, owner, body.value, c, now, faults);
      match o.result
      case Err(e) =>
        Exchange(t, Fail(if e == CredentialNotFound then NotFound else if e == InvalidPublicKey then BadRequest else InternalServerError))
      case Ok(resp) => Exchange(o.state, Send(OK, resp))
  }

  /**
   * The service accepts the empty key on a credential the caller owns, but
   * the endpoint refuses it before the service is called.
   */
  lemma EmptyKeyOnlyReachesServiceDirectly(t: Table, owner: Uuid, id: Uuid, c: Primitives, now: Time)
    requires Repo.Valid(t) && id in t && Repo.Live(t[id]) && t[id].userId == owner
    ensures Svc.UpdatePublicKey(t, id, owner, "", c, now, {}).result.Ok?
    ensures Svc.UpdatePublicKey(t, id, owner, "", c, now, {}).state[id].publicKeyFingerprint == ""
    ensures UpdatePublicKey(t, owner, Uuids.ToString(id), Some(""), c, now, {}) == Exchange(t, Fail(BadRequest))
  {
    Uuids.ParseToString(id);
  }

  /** `RegenerateSecret`: 400 for a malformed id, 404 for a credential the caller does not own, 500 when randomness or the write fails. */
  function RegenerateSecret(t: Table, owner: Uuid, idParam: string, idBytes: Option<seq<byte>>, secretBytes: Option<seq<byte>>, now: Time, faults: set<Call>): (r: Exchange<Table, CreateResponse>)
    requires Repo.Valid(t)
    requires idBytes.Some? ==> |idBytes.value| == 16
    requires secretBytes.Some? ==> |secretBytes.value| == 32
    ensures Repo.Valid(r.state)
    ensures r.reply.status in {OK, BadRequest, NotFound, InternalServerError}
    ensures r.reply.status != OK ==> r.state == t && r.reply.body.None?
    ensures r.reply.status == BadRequest <==> Uuids.Parse(idParam).None?
    ensures r.reply.status == NotFound <==>
      Uuids.Parse(idParam).Some? && Svc.Lookup(t, Uuids.Parse(idParam).value, owner, faults).None?
    ensures r.reply.status == InternalServerError <==>
      && Uuids.Parse(idParam).Some? && Svc.Lookup(t, Uuids.Parse(idParam).value, owner, faults).Some?
      && (idBytes.None? || secretBytes.None? || Update in faults)
    ensures r.reply.status == OK ==>
      var id := Uuids.Parse(idParam).value;
      && id in t && id in r.state && r.reply.body.Some?
      && r.reply.body.value.clientSecret == r.state[id].clientSecret
      && r.state[id].clientId == t[id].clientId && r.state[id].userId == owner
  {
    match Uuids.Parse(idParam)
    case None => Exchange(t, Fail(BadRequest))
    case Some(id) =>
      var o := Svc.RegenerateSecret(t, id, owner, idBytes, secretBytes, now, faults);
      match o.result
      case Err(e) => Exchange(t, Fail(if e == CredentialNotFound then NotFound else InternalServerError))
      case Ok(resp) => Exchange(o.state, Send(OK, resp))
  }

  /** `DeleteCredential`: 400 for a malformed id, 404 for a credential the caller does not own, 500 for a failed write, 204 with no body on success. */
  function DeleteCredential(t: Table, owner: Uuid, idParam: string, faults: set<Call>): (r: Exchange<Table, ()>)
    requires Repo.Valid(t)
    ensures Repo.Valid(r.state)
    ensures r.reply.status in {NoContent, BadRequest, NotFound, InternalServerError}
    ensures r.reply.body.None?
    ensures r.reply.status != NoContent ==> r.state == t
    ensures r.reply.status == BadRequest <==> Uuids.Parse(idParam).None?
    ensures r.reply.status == NotFound <==>
      Uuids.Parse(idParam).Some? && Svc.Lookup(t, Uuids.Parse(idParam).value, owner, faults).None?
    ensures r.reply.status == NoContent <==>
      Uuids.Parse(idParam).Some? && Svc.Lookup(t, Uuids.Parse(idParam).value, owner, faults).Some? && Delete !in faults
    ensures r.reply.status == NoContent ==>
      var id := Uuids.Parse(idParam).value;
      id in t && r.state == t[id := t[id].(deleted := true)]
  {
    match Uuids.Parse(idParam)
    case None => Exchange(t, Fail(BadRequest))
    case Some(id) =>
      var o := Svc.DeleteCredential(t, id, owner, faults);
      match o.result
      case Err(e) => Exchange(t, Fail(if e == CredentialNotFound then NotFound else InternalServerError))
      case Ok(_) => Exchange(o.state, Fail(NoContent))
  }
}
