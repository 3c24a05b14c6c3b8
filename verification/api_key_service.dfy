/**
 * internal/services/api_key_service.go: API key listing, creation under a
 * quota, revocation by the owner, and the validation stub. Operations take
 * the table, their inputs, what they draw, the current time and the set of
 * repository calls that fail on this run.
 */
module ApiKeyService {
  import opened Wrappers
  import opened Hex
  import opened Uuids
  import opened Store
  import opened Errors
  import opened Crypto
  import opened ApiKeyModel
  import UserModel
  import Repo = ApiKeyRepository

  type Table = Repo.Table

  /** `MaxAPIKeysPerUser`. */
  const MaxKeys: nat := 10

  datatype CreateKeyInput = CreateKeyInput(name: string, environment: string)

  /** The listing view is that of one of the owner's live, active keys. */
  ghost predicate Listed(t: Table, owner: Uuid, view: ApiKeyResponse) {
    exists id :: id in t && Repo.Live(t[id]) && t[id].userId == owner && t[id].isActive && view == ToResponse(t[id])
  }

  /** `ListKeys`: each of the owner's active keys once, newest first, in the listing view. */
  method ListKeys(t: Table, owner: Uuid, faults: set<Call>) returns (r: Result<seq<ApiKeyResponse>, Error>)
    requires Repo.Valid(t)
    ensures FindByUserID in faults <==> r.Err?
    ensures r.Ok? ==> forall i :: 0 <= i < |r.value| ==> Listed(t, owner, r.value[i])
    ensures r.Ok? ==> forall id :: id in t && Repo.Live(t[id]) && t[id].userId == owner && t[id].isActive ==> ToResponse(t[id]) in r.value
    ensures r.Ok? ==> |r.value| == Repo.CountByUserID(t, owner)
    ensures r.Ok? ==> forall i, j :: 0 <= i < j < |r.value| ==> r.value[i].id != r.value[j].id
    ensures r.Ok? ==> forall i, j :: 0 <= i < j < |r.value| ==> r.value[i].createdAt >= r.value[j].createdAt
  {
    if FindByUserID in faults {
      return Err(DbFailure);
    }
    var rows := Repo.FindByUserID(t, owner);
    var views := seq(|rows|, i requires 0 <= i < |rows| => ToResponse(rows[i]));
    assert forall i :: 0 <= i < |views| ==> views[i].id == rows[i].id && views[i].createdAt == rows[i].createdAt;
    ViewsListed(t, owner, rows, views);
    return Ok(views);
  }

  /** The views of a listing that holds exactly the owner's active keys are exactly the owner's listed views. */
  lemma ViewsListed(t: Table, owner: Uuid, rows: seq<ApiKey>, views: seq<ApiKeyResponse>)
    requires |views| == |rows| && forall i :: 0 <= i < |rows| ==> views[i] == ToResponse(rows[i])
    requires forall i :: 0 <= i < |rows| ==> rows[i] in t.Values && Repo.Live(rows[i]) && rows[i].userId == owner && rows[i].isActive
    requires forall id :: id in t && Repo.Live(t[id]) && t[id].userId == owner && t[id].isActive ==> t[id] in rows
    ensures forall i :: 0 <= i < |views| ==> Listed(t, owner, views[i])
    ensures forall id :: id in t && Repo.Live(t[id]) && t[id].userId == owner && t[id].isActive ==> ToResponse(t[id]) in views
  {
    forall i | 0 <= i < |views|
      ensures Listed(t, owner, views[i])
    {
      assert rows[i] in t.Values;
      var id :| id in t && t[id] == rows[i];
      assert views[i] == ToResponse(t[id]);
    }
    forall id | id in t && Repo.Live(t[id]) && t[id].userId == owner && t[id].isActive
      ensures ToResponse(t[id]) in views
    {
      var i :| 0 <= i < |rows| && rows[i] == t[id];
      assert views[i] == ToResponse(t[id]);
    }
  }

  /**
   * `CreateKey`: the quota check, the generator, bcrypt of the full key
   * (with the salt bcrypt would draw), and the insert; the first failure is
   * returned. The table keeps only the display prefix and the hash.
   */
  function CreateKey(t: Table, owner: Uuid, input: CreateKeyInput, c: Primitives, bytes: Option<seq<byte>>, salt: seq<byte>, newId: Uuid, now: Time, faults: set<Call>): (r: Outcome<Table, CreateResponse>)
    requires Repo.Valid(t) && IsVersion4(newId)
    requires bytes.Some? ==> |bytes.value| == 32
    ensures Repo.Valid(r.state)
    ensures r.result.Err? ==> r.state == t
    ensures CountByUserID !in faults && Repo.CountByUserID(t, owner) >= MaxKeys ==> r == Outcome(t, Err(MaxKeysReached))
    ensures r.result.Err? && r.result.error == MaxKeysReached ==> CountByUserID !in faults && Repo.CountByUserID(t, owner) >= MaxKeys
    ensures CountByUserID in faults ==> r.result == Err(DbFailure)
    ensures CountByUserID !in faults && Repo.CountByUserID(t, owner) < MaxKeys && bytes.None? ==> r.result == Err(RandFailure)
    ensures r.result.Ok? <==>
      && CountByUserID !in faults && Repo.CountByUserID(t, owner) < MaxKeys
      && bytes.Some? && c.bcryptHash(GenerateAPIKey(bytes).fullKey, salt).Some?
      && Create !in faults && newId !in t
    ensures r.result.Ok? ==>
      var resp := r.result.value;
      var id := resp.base.id;
      && Repo.CountByUserID(t, owner) < MaxKeys
      && Repo.CountByUserID(r.state, owner) == Repo.CountByUserID(t, owner) + 1
      && id !in t && r.state.Keys == t.Keys + {id}
      && (forall x :: x in t ==> r.state[x] == t[x])
      && var s := r.state[id];
      && s.userId == owner && s.isActive && !s.deleted && s.name == input.name
      && s.environment == (if input.environment == "" then "sandbox" else input.environment)
      && |resp.key| == 68 && s.keyPrefix == resp.key[..12]
      && c.bcryptHash(resp.key, salt) == Some(s.keyHash)
      && resp.base == ToResponse(s)
  {
    if CountByUserID in faults then Outcome(t, Err(DbFailure))
    else if Repo.CountByUserID(t, owner) >= MaxKeys then Outcome(t, Err(MaxKeysReached))
    else
      var g := GenerateAPIKey(bytes);
      if g.err.Some? then Outcome(t, Err(g.err.value))
      else
        match c.bcryptHash(g.fullKey, salt)
        case None => Outcome(t, Err(HashFailure))
        case Some(hash) =>
          var rec := ApiKey(Nil, owner, input.name, g.prefix, hash, input.environment, true, None, None, 0, 0, false);
          if Create in faults then Outcome(t, Err(DbFailure))
          else
            match Repo.Create(t, rec, newId, now)
            case Err(e) => Outcome(t, Err(e))
            case Ok(t') =>
              Repo.CreateCounts(t, rec, newId, now);
              Outcome(t', Ok(CreateResponse(ToResponse(Repo.Inserted(rec, newId, now)), g.fullKey)))
  }

  /** The key as the owner sees it: `FindByID` (no owner or active filter) followed by the ownership check. */
  predicate Owns(t: Table, keyId: Uuid, owner: Uuid) {
    keyId in t && Repo.Live(t[keyId]) && t[keyId].userId == owner
  }

  /**
   * `RevokeKey`: a missing key and another user's key give the same error
   * and change nothing; the owner's key is deactivated, whether or not it
   * already was.
   */
  function RevokeKey(t: Table, keyId: Uuid, owner: Uuid, now: Time, faults: set<Call>): (r: Outcome<Table, ()>)
    requires Repo.Valid(t)
    ensures Repo.Valid(r.state)
    ensures r.result.Err? ==> r.state == t
    ensures r.result == Err(KeyNotFound) <==> FindByID in faults || !Owns(t, keyId, owner)
    ensures r.result.Ok? <==> FindByID !in faults && Call.Revoke !in faults && Owns(t, keyId, owner)
    ensures r.result.Ok? ==> r.state == t[keyId := t[keyId].(isActive := false, updatedAt := now)]
  {
    var found := if FindByID in faults then None else Repo.FindByID(t, keyId);
    match found
    case None => Outcome(t, Err(KeyNotFound))
    case Some(key) =>
      if key.userId != owner then Outcome(t, Err(KeyNotFound))
      else if Call.Revoke in faults then Outcome(t, Err(DbFailure))
      else Outcome(Repo.Revoke(t, keyId, owner, now), Ok(()))
  }

  /** Revoking an already revoked key succeeds again and changes nothing but `updated_at`. */
  lemma RevokeIdempotent(t: Table, keyId: Uuid, owner: Uuid, now: Time, later: Time)
    requires Repo.Valid(t) && Owns(t, keyId, owner)
    ensures var once := RevokeKey(t, keyId, owner, now, {});
      && once.result.Ok?
      && RevokeKey(once.state, keyId, owner, later, {}).result.Ok?
      && RevokeKey(once.state, keyId, owner, later, {}).state == once.state[keyId := once.state[keyId].(updatedAt := later)]
  {
  }

  /** `ValidateKey`: a stub that rejects every key. */
  function ValidateKey(key: string): (r: Result<UserModel.User, Error>)
    ensures r == Err(KeyValidationNotImplemented)
  {
    Err(KeyValidationNotImplemented)
  }
}
