/**
 * The API-key endpoints: the request checks made before the service is
 * called and the mapping of its errors to HTTP statuses.
 */
module ApiKeyHandler {
  import opened Wrappers
  import opened Hex
  import opened Uuids
  import opened Store
  import opened Errors
  import opened Crypto
  import opened Http
  import opened ApiKeyModel
  import Repo = ApiKeyRepository
  import Svc = ApiKeyService

  type Table = Repo.Table

  /** The environment a create request names, with the empty one read as `sandbox`. */
  function Normalized(env: string): (e: string)
    ensures env != "" ==> e == env
    ensures e != ""
  {
    if env == "" then "sandbox" else env
  }

  /** The environments a key may be created in, after the empty one has been defaulted. */
  predicate EnvironmentAccepted(env: string) {
    env == "sandbox" || env == "production"
  }

  /** `ListKeys`: a storage error gives 500; otherwise 200 with each of the caller's active keys once, newest first. */
  method ListKeys(t: Table, owner: Uuid, faults: set<Call>) returns (r: Reply<seq<ApiKeyResponse>>)
    requires Repo.Valid(t)
    ensures r.status == OK || r.status == InternalServerError
    ensures r.status == InternalServerError <==> FindByUserID in faults
    ensures r.status == OK ==> r.body.Some?
    ensures r.status == OK ==> forall i :: 0 <= i < |r.body.value| ==> Svc.Listed(t, owner, r.body.value[i])
    ensures r.status == OK ==> forall id :: id in t && Repo.Live(t[id]) && t[id].userId == owner && t[id].isActive ==> ToResponse(t[id]) in r.body.value
    ensures r.status == OK ==> |r.body.value| == Repo.CountByUserID(t, owner)
    ensures r.status == OK ==> forall i, j :: 0 <= i < j < |r.body.value| ==> r.body.value[i].id != r.body.value[j].id
    ensures r.status == OK ==> forall i, j :: 0 <= i < j < |r.body.value| ==> r.body.value[i].createdAt >= r.body.value[j].createdAt
  {
    var listed := Svc.ListKeys(t, owner, faults);
    if listed.Err? {
      return Fail(InternalServerError);
    }
    return Send(OK, listed.value);
  }

  /** The checks `CreateKey` makes before calling the service: a parsed body, a name, and a known environment once the empty one is defaulted. */
  predicate CreateAdmitted(body: Option<Svc.CreateKeyInput>) {
    body.Some? && body.value.name != "" && EnvironmentAccepted(Normalized(body.value.environment))
  }

  /**
   * `CreateKey`: 400 for a request that fails the checks; the service is
   * given the input with its environment defaulted, so the quota gives 409,
   * any other failure 500 and success 201.
   */
  function CreateKey(t: Table, owner: Uuid, body: Option<Svc.CreateKeyInput>, c: Primitives, bytes: Option<seq<byte>>, salt: seq<byte>, newId: Uuid, now: Time, faults: set<Call>): (r: Exchange<Table, CreateResponse>)
    requires Repo.Valid(t) && IsVersion4(newId)
    requires bytes.Some? ==> |bytes.value| == 32
    ensures Repo.Valid(r.state)
    ensures r.reply.status in {Created, BadRequest, Conflict, InternalServerError}
    ensures r.reply.status != Created ==> r.state == t && r.reply.body.None?
    ensures r.reply.status == BadRequest <==> !CreateAdmitted(body)
    ensures r.reply.status == Conflict <==>
      CreateAdmitted(body) && CountByUserID !in faults && Repo.CountByUserID(t, owner) >= Svc.MaxKeys
    ensures r.reply.status == Created <==>
      && CreateAdmitted(body)
      && CountByUserID !in faults && Repo.CountByUserID(t, owner) < Svc.MaxKeys
      && bytes.Some? && c.bcryptHash(GenerateAPIKey(bytes).fullKey, salt).Some?
      && Create !in faults && newId !in t
    ensures r.reply.status == Created ==> r.reply.body.Some?
    ensures r.reply.status == Created ==>
      var resp := r.reply.body.value;
      var id := resp.base.id;
      && id !in t && id in r.state
      && r.state[id].userId == owner && r.state[id].name == body.value.name
      && r.state[id].environment == Normalized(body.value.environment)
      && |resp.key| == 68 && r.state[id].keyPrefix == resp.key[..12]
      && Repo.CountByUserID(r.state, owner) == Repo.CountByUserID(t, owner) + 1
  {
    if body.None? || body.value.name == "" then Exchange(t, Fail(BadRequest))
    else
      var input := body.value.(environment := Normalized(body.value.environment));
      if !EnvironmentAccepted(input.environment) then Exchange(t, Fail(BadRequest))
      else
        var o := Svc.CreateKey(t, owner, input, c, bytes, salt, newId, now, faults);
        match o.result
        case Err(e) => Exchange(t, Fail(if e == MaxKeysReached then Conflict else InternalServerError))
        case Ok(resp) => Exchange(o.state, Send(Created, resp))
  }

  /** `RevokeKey`: 400 for a malformed id, 404 for a key the caller does not own, 500 for a failed write, 204 with no body on success. */
  function RevokeKey(t: Table, owner: Uuid, idParam: string, now: Time, faults: set<Call>): (r: Exchange<Table, ()>)
    requires Repo.Valid(t)
    ensures Repo.Valid(r.state)
    ensures r.reply.status in {NoContent, BadRequest, NotFound, InternalServerError}
    ensures r.reply.body.None?
    ensures r.reply.status != NoContent ==> r.state == t
    ensures r.reply.status == BadRequest <==> Uuids.Parse(idParam).None?
    ensures r.reply.status == NotFound <==>
      Uuids.Parse(idParam).Some? && (FindByID in faults || !Svc.Owns(t, Uuids.Parse(idParam).value, owner))
    ensures r.reply.status == NoContent <==>
      && Uuids.Parse(idParam).Some? && FindByID !in faults && Call.Revoke !in faults
      && Svc.Owns(t, Uuids.Parse(idParam).value, owner)
    ensures r.reply.status == NoContent ==>
      var id := Uuids.Parse(idParam).value;
      id in t && r.state == t[id := t[id].(isActive := false, updatedAt := now)]
  {
    match Uuids.Parse(idParam)
    case None => Exchange(t, Fail(BadRequest))
    case Some(id) =>
      var o := Svc.RevokeKey(t, id, owner, now, faults);
      match o.result
      case Err(e) => Exchange(t, Fail(if e == KeyNotFound then NotFound else InternalServerError))
      case Ok(_) => Exchange(o.state, Fail(NoContent))
  }
}
