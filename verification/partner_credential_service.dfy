/**
 * internal/services/partner_credential_service.go: the partner credential
 * lifecycle over the abstract store. Each operation takes the table, the
 * caller's inputs, the random bytes and identifier it draws, the current
 * time and the set of repository calls that fail on this run; it returns the
 * table afterwards together with its result. A failed operation leaves the
 * table as it was.
 */
module PartnerCredentialService {
  import opened Wrappers
  import opened Hex
  import opened Uuids
  import opened Store
  import opened Errors
  import opened Crypto
  import opened PartnerCredentialModel
  import Repo = PartnerCredentialRepository

  type Table = Repo.Table

  /** At most this many active credentials per user. */
  const MaxCredentials: nat := 5

  const DefaultEnvironment: string := "sandbox"

  datatype CreateInput = CreateInput(partnerName: string, environment: string, callbackUrl: string, ipWhitelist: seq<string>, publicKey: string)

  datatype UpdateInput = UpdateInput(partnerName: string, environment: string, callbackUrl: string, ipWhitelist: seq<string>)

  /** What one creation draws: the two reads of `GenerateClientCredentials`, the channel read, and the `uuid.New` of `BeforeCreate`. */
  datatype Draws = Draws(idBytes: Option<seq<byte>>, secretBytes: Option<seq<byte>>, channelBytes: Option<seq<byte>>, newId: Uuid)

  predicate Shaped(d: Draws) {
    && (d.idBytes.Some? ==> |d.idBytes.value| == 16)
    && (d.secretBytes.Some? ==> |d.secretBytes.value| == 32)
    && (d.channelBytes.Some? ==> |d.channelBytes.value| == 8)
    && IsVersion4(d.newId)
  }

  /** `CountByUserID`, or its storage error. */
  function Count(t: Table, owner: Uuid, faults: set<Call>): Result<nat, Error> {
    if CountByUserID in faults then Err(DbFailure) else Ok(Repo.CountByUserID(t, owner))
  }

  /** `FindByIDAndUserID`, failing when the call fails. */
  function Lookup(t: Table, id: Uuid, owner: Uuid, faults: set<Call>): (r: Option<PartnerCredential>)
    requires Repo.Valid(t)
    ensures r.Some? <==> FindByIDAndUserID !in faults && id in t && Repo.Live(t[id]) && t[id].userId == owner
    ensures r.Some? ==> r.value == t[id]
  {
    if FindByIDAndUserID in faults then None else Repo.FindByIDAndUserID(t, id, owner)
  }

  /** The record `CreateCredential` hands to the repository, before `BeforeCreate` and the timestamps. */
  function NewRecord(owner: Uuid, input: CreateInput, g: ClientCredentials, channelId: string, fingerprint: string, addedAt: Option<Time>): PartnerCredential {
    PartnerCredential(
      Nil, owner, g.clientId, g.clientSecret, g.secretPrefix, input.publicKey, fingerprint, addedAt,
      input.partnerName, channelId,
      if input.environment == "" then DefaultEnvironment else input.environment,
      input.callbackUrl, input.ipWhitelist, true, None, None, 0, 0, false)
  }

  /**
   * The checks and generators of `CreateCredential` before the insert: the
   * quota, the client credentials, the channel ID and the public key, in that
   * order; the first failure is returned. On success, the record to insert.
   */
  function Prepare(t: Table, owner: Uuid, input: CreateInput, c: Primitives, d: Draws, now: Time, faults: set<Call>): (r: Result<PartnerCredential, Error>)
    requires Shaped(d)
    ensures r == Err(DbFailure) <==> CountByUserID in faults
    ensures CountByUserID !in faults && Repo.CountByUserID(t, owner) >= MaxCredentials ==> r == Err(MaxCredentialsReached)
    ensures r == Err(MaxCredentialsReached) ==> CountByUserID !in faults && Repo.CountByUserID(t, owner) >= MaxCredentials
    ensures (CountByUserID !in faults && Repo.CountByUserID(t, owner) < MaxCredentials &&
             (d.idBytes.None? || d.secretBytes.None? || d.channelBytes.None?)) ==> r == Err(RandFailure)
    ensures r == Err(RandFailure) ==> d.idBytes.None? || d.secretBytes.None? || d.channelBytes.None?
    ensures r == Err(InvalidPublicKey) <==>
      && CountByUserID !in faults && Repo.CountByUserID(t, owner) < MaxCredentials
      && d.idBytes.Some? && d.secretBytes.Some? && d.channelBytes.Some?
      && input.publicKey != "" && ValidatePublicKey(c, input.publicKey).Err?
    ensures r.Ok? <==>
      && CountByUserID !in faults && Repo.CountByUserID(t, owner) < MaxCredentials
      && d.idBytes.Some? && d.secretBytes.Some? && d.channelBytes.Some?
      && (input.publicKey != "" ==> ValidatePublicKey(c, input.publicKey).Ok?)
    ensures r.Ok? ==>
      var s := r.value;
      var g := GenerateClientCredentials(d.idBytes, d.secretBytes);
      && s.id == Nil && s.userId == owner && s.isActive && !s.deleted
      && s.clientId == g.clientId && s.clientSecret == g.clientSecret && s.clientSecretPrefix == g.secretPrefix
      && s.channelId == GenerateChannelID(d.channelBytes).channelId
      && s.partnerName == input.partnerName && s.callbackUrl == input.callbackUrl && s.ipWhitelist == input.ipWhitelist
      && s.environment == (if input.environment == "" then DefaultEnvironment else input.environment)
      && s.publicKey == input.publicKey
      && (input.publicKey == "" ==> s.publicKeyFingerprint == "" && s.publicKeyAddedAt.None?)
      && (input.publicKey != "" ==> Ok(s.publicKeyFingerprint) == ValidatePublicKey(c, input.publicKey) && s.publicKeyAddedAt == Some(now))
  {
    match Count(t, owner, faults)
    case Err(e) => Err(e)
    case Ok(n) =>
      if n >= MaxCredentials then Err(MaxCredentialsReached)
      else
        var g := GenerateClientCredentials(d.idBytes, d.secretBytes);
        if g.err.Some? then Err(g.err.value)
        else
          var ch := GenerateChannelID(d.channelBytes);
          if ch.err.Some? then Err(ch.err.value)
          else
            var fp := if input.publicKey != "" then ValidatePublicKey(c, input.publicKey) else Ok("");
            if fp.Err? then Err(InvalidPublicKey)
            else Ok(NewRecord(owner, input, g, ch.channelId, fp.value, if input.publicKey != "" then Some(now) else None))
  }

  /**
   * `CreateCredential`: `Prepare`, then the insert. The stored row is the
   * prepared record with its identifier and timestamps; the response carries
   * its listing view and the plaintext secret.
   */
  function CreateCredential(t: Table, owner: Uuid, input: CreateInput, c: Primitives, d: Draws, now: Time, faults: set<Call>): (r: Outcome<Table, CreateResponse>)
    requires Repo.Valid(t) && Shaped(d)
    ensures Repo.Valid(r.state)
    ensures r.result.Err? ==> r.state == t
    ensures Prepare(t, owner, input, c, d, now, faults).Err? ==> r == Outcome(t, Err(Prepare(t, owner, input, c, d, now, faults).error))
    ensures Prepare(t, owner, input, c, d, now, faults).Ok? && r.result.Err? ==> r.result.error == DbFailure
    ensures Prepare(t, owner, input, c, d, now, faults).Ok? ==>
      (r.result.Ok? <==>
        && Create !in faults && d.newId !in t
        && !(exists id :: id in t && t[id].clientId == GenerateClientCredentials(d.idBytes, d.secretBytes).clientId))
    ensures r.result.Ok? ==>
      var resp := r.result.value;
      var id := resp.base.id;
      && Prepare(t, owner, input, c, d, now, faults).Ok?
      && id !in t && id in r.state && r.state == t[id := r.state[id]]
      && r.state[id] == Repo.Inserted(Prepare(t, owner, input, c, d, now, faults).value, d.newId, now)
      && Repo.CountByUserID(r.state, owner) == Repo.CountByUserID(t, owner) + 1
      && resp.clientSecret == r.state[id].clientSecret
      && resp.base == ToResponse(r.state[id])
  {
    match Prepare(t, owner, input, c, d, now, faults)
    case Err(e) => Outcome(t, Err(e))
    case Ok(rec) => Persist(t, rec, d.newId, now, faults)
  }

  /**
   * The insert step of `CreateCredential`: it fails exactly when the call
   * fails or a unique index (key or client ID) is taken; otherwise the stored
   * row is the record with its identifier and timestamps, the owner's count
   * goes up by one, and the response shows that row and its secret.
   */
  function Persist(t: Table, rec: PartnerCredential, drawn: Uuid, now: Time, faults: set<Call>): (r: Outcome<Table, CreateResponse>)
    requires Repo.Valid(t) && IsVersion4(drawn) && rec.isActive && !rec.deleted
    ensures Repo.Valid(r.state)
    ensures r.result.Err? ==> r.state == t && r.result.error == DbFailure
    ensures r.result.Err? <==>
      || Create in faults || Repo.Inserted(rec, drawn, now).id in t
      || exists id :: id in t && t[id].clientId == rec.clientId
    ensures r.result.Ok? ==>
      var s := Repo.Inserted(rec, drawn, now);
      && s.id !in t && r.state == t[s.id := s]
      && r.result.value == CreateResponse(ToResponse(s), s.clientSecret)
      && Repo.CountByUserID(r.state, rec.userId) == Repo.CountByUserID(t, rec.userId) + 1
  {
    if Create in faults then Outcome(t, Err(DbFailure))
    else
      match Repo.Create(t, rec, drawn, now)
      case Err(e) => Outcome(t, Err(e))
      case Ok(t') =>
        var s := Repo.Inserted(rec, drawn, now);
        Repo.CreateCounts(t, rec, drawn, now, rec.userId);
        assert t' == t[s.id := s];
        Outcome(t', Ok(CreateResponse(ToResponse(s), s.clientSecret)))
  }

  /**
   * Creation under the quota succeeds when no call fails, the three reads are
   * served, the public key (if any) is accepted and the drawn key and client
   * ID are unused.
   */
  lemma CreateSucceeds(t: Table, owner: Uuid, input: CreateInput, c: Primitives, d: Draws, now: Time, faults: set<Call>)
    requires Repo.Valid(t) && Shaped(d)
    requires CountByUserID !in faults && Create !in faults && Repo.CountByUserID(t, owner) < MaxCredentials
    requires d.idBytes.Some? && d.secretBytes.Some? && d.channelBytes.Some?
    requires input.publicKey != "" ==> ValidatePublicKey(c, input.publicKey).Ok?
    requires d.newId !in t
    requires forall x :: x in t ==> t[x].clientId != GenerateClientCredentials(d.idBytes, d.secretBytes).clientId
    ensures CreateCredential(t, owner, input, c, d, now, faults).result.Ok?
  {
  }

  /** The view is that of one of the owner's live, active credentials. */
  ghost predicate Listed(t: Table, owner: Uuid, view: PartnerCredentialResponse) {
    exists id :: id in t && Repo.Live(t[id]) && t[id].userId == owner && t[id].isActive && view == ToResponse(t[id])
  }

  /** `ListCredentials`: each of the owner's active credentials once, newest first, in the listing view. */
  method ListCredentials(t: Table, owner: Uuid, faults: set<Call>) returns (r: Result<seq<PartnerCredentialResponse>, Error>)
    requires Repo.Valid(t)
    ensures FindByUserID in faults <==> r.Err?
    ensures r.Ok? ==> forall i :: 0 <= i < |r.value| ==> Listed(t, owner, r.value[i])
    ensures r.Ok? ==> forall id :: id in t && Repo.Live(t[id]) && t[id].userId == owner && t[id].isActive ==> ToResponse(t[id]) in r.value
    ensures r.Ok? ==> |r.value| == Repo.CountByUserID(t, owner)
    ensures r.Ok? ==> forall i, j :: 0 <= i < j < |r.value| ==> r.value[i].id != r.value[j].id
    ensures r.Ok? ==> forall i, j :: 0 <= i < j < |r.value| ==> r.value[i].createdAt >= r.value[j].createdAt
  {
    if FindByUserID in faults {
      return Err(DbFailure);
    }
    var rows := Repo.FindByUserID(t, owner);
    var views := seq(|rows|, i requires 0 <= i < |rows| => ToResponse(rows[i]));
    assert forall i :: 0 <= i < |views| ==> views[i].id == rows[i].id && views[i].createdAt == rows[i].createdAt;
    ViewsListed(t, owner, rows, views);
    return Ok(views);
  }

  /** The views of a listing that holds exactly the owner's active credentials are exactly the owner's listed views. */
  lemma ViewsListed(t: Table, owner: Uuid, rows: seq<PartnerCredential>, views: seq<PartnerCredentialResponse>)
    requires |views| == |rows| && forall i :: 0 <= i < |rows| ==> views[i] == ToResponse(rows[i])
    requires forall i :: 0 <= i < |rows| ==> rows[i] in t.Values && Repo.Live(rows[i]) && rows[i].userId == owner && rows[i].isActive
    requires forall id :: id in t && Repo.Live(t[id]) && t[id].userId == owner && t[id].isActive ==> t[id] in rows
    ensures forall i :: 0 <= i < |views| ==> Listed(t, owner, views[i])
    ensures forall id :: id in t && Repo.Live(t[id]) && t[id].userId == owner && t[id].isActive ==> ToResponse(t[id]) in views
  {
    forall i | 0 <= i < |views|
      ensures Listed(t, owner, views[i])
    {
      assert rows[i] in t.Values;
      var id :| id in t && t[id] == rows[i];
      assert views[i] == ToResponse(t[id]);
    }
    forall id | id in t && Repo.Live(t[id]) && t[id].userId == owner && t[id].isActive
      ensures ToResponse(t[id]) in views
    {
      var i :| 0 <= i < |rows| && rows[i] == t[id];
      assert views[i] == ToResponse(t[id]);
    }
  }

  /** `GetCredential`: the detail view of the owner's credential; every lookup failure reads as not found. */
  function GetCredential(t: Table, id: Uuid, owner: Uuid, faults: set<Call>): (r: Result<DetailResponse, Error>)
    requires Repo.Valid(t)
    ensures r.Err? ==> r.error == CredentialNotFound
    ensures r.Ok? <==> FindByIDAndUserID !in faults && id in t && Repo.Live(t[id]) && t[id].userId == owner
    ensures r.Ok? ==> r.value == ToDetailResponse(t[id])
  {
    match Lookup(t, id, owner, faults)
    case None => Err(CredentialNotFound)
    case Some(cred) => Ok(ToDetailResponse(cred))
  }

  /**
   * The merge rule of `UpdateCredential`: the partner name and the
   * environment are replaced only by non-empty values, the callback URL and
   * the IP whitelist always.
   */
  function Merge(cred: PartnerCredential, input: UpdateInput): (m: PartnerCredential)
    ensures m.partnerName == (if input.partnerName != "" then input.partnerName else cred.partnerName)
    ensures m.environment == (if input.environment != "" then input.environment else cred.environment)
    ensures m.callbackUrl == input.callbackUrl && m.ipWhitelist == input.ipWhitelist
    ensures m.(partnerName := cred.partnerName, environment := cred.environment, callbackUrl := cred.callbackUrl, ipWhitelist := cred.ipWhitelist) == cred
  {
    cred.(
      partnerName := if input.partnerName != "" then input.partnerName else cred.partnerName,
      environment := if input.environment != "" then input.environment else cred.environment,
      callbackUrl := input.callbackUrl,
      ipWhitelist := input.ipWhitelist)
  }

  /** Applying the same update twice is applying it once. */
  lemma MergeIdempotent(cred: PartnerCredential, input: UpdateInput)
    ensures Merge(Merge(cred, input), input) == Merge(cred, input)
  {
  }

  /** An update echoing the current callback URL and whitelist with empty name and environment changes nothing. */
  lemma MergeEmptyKeeps(cred: PartnerCredential)
    ensures Merge(cred, UpdateInput("", "", cred.callbackUrl, cred.ipWhitelist)) == cred
  {
  }

  /** `UpdateCredential`: the owner's credential, active or not, merged with the input and saved. */
  function UpdateCredential(t: Table, id: Uuid, owner: Uuid, input: UpdateInput, now: Time, faults: set<Call>): (r: Outcome<Table, PartnerCredentialResponse>)
    requires Repo.Valid(t)
    ensures Repo.Valid(r.state)
    ensures r.result.Err? ==> r.state == t
    ensures Lookup(t, id, owner, faults).None? <==> r.result == Err(CredentialNotFound)
    ensures r.result.Err? && r.result.error != CredentialNotFound ==> r.result.error == DbFailure && Update in faults
    ensures r.result.Ok? ==>
      && id in t && r.state == t[id := Merge(t[id], input).(updatedAt := now)]
      && r.result.value == ToResponse(Merge(t[id], input))
  {
    match Lookup(t, id, owner, faults)
    case None => Outcome(t, Err(CredentialNotFound))
    case Some(cred) =>
      var m := Merge(cred, input);
      if Update in faults then Outcome(t, Err(DbFailure))
      else
        match Repo.Save(t, m, now)
        case Err(e) => Outcome(t, Err(e))
        case Ok(t') => Outcome(t', Ok(ToResponse(m.(updatedAt := now))))
  }

  /**
   * `UpdatePublicKey`: look the credential up, validate the key, write it.
   * The empty key passes validation, so it clears the key and its
   * fingerprint while stamping `public_key_added_at`.
   */
  function UpdatePublicKey(t: Table, id: Uuid, owner: Uuid, publicKey: string, c: Primitives, now: Time, faults: set<Call>): (r: Outcome<Table, PartnerCredentialResponse>)
    requires Repo.Valid(t)
    ensures Repo.Valid(r.state)
    ensures r.result.Err? ==> r.state == t
    ensures Lookup(t, id, owner, faults).None? <==> r.result == Err(CredentialNotFound)
    ensures Lookup(t, id, owner, faults).Some? && ValidatePublicKey(c, publicKey).Err? ==> r == Outcome(t, Err(InvalidPublicKey))
    ensures Lookup(t, id, owner, faults).Some? && ValidatePublicKey(c, publicKey).Ok? ==>
      (r.result.Ok? <==> Call.UpdatePublicKey !in faults)
    ensures Lookup(t, id, owner, faults).Some? && ValidatePublicKey(c, publicKey).Ok? && r.result.Err? ==> r.result.error == DbFailure
    ensures r.result.Ok? ==>
      && id in t && ValidatePublicKey(c, publicKey).Ok?
      && r.state == t[id := t[id].(publicKey := publicKey, publicKeyFingerprint := ValidatePublicKey(c, publicKey).value,
                                   publicKeyAddedAt := Some(now), updatedAt := now)]
      && r.result.value == ToResponse(r.state[id])
    ensures r.result.Ok? && publicKey == "" ==> r.state[id].publicKeyFingerprint == "" && r.state[id].publicKeyAddedAt == Some(now)
  {
    match Lookup(t, id, owner, faults)
    case None => Outcome(t, Err(CredentialNotFound))
    case Some(cred) =>
      var v := ValidatePublicKey(c, publicKey);
      if v.Err? then Outcome(t, Err(InvalidPublicKey))
      else Rekey(t, cred, publicKey, v.value, now, faults)
  }

  /**
   * The write `UpdatePublicKey` makes once the credential is found and the
   * key validated, and the re-read that follows it: the row is still live
   * and owned, so the re-read finds the updated record.
   */
  function Rekey(t: Table, cred: PartnerCredential, publicKey: string, fingerprint: string, now: Time, faults: set<Call>): (r: Outcome<Table, PartnerCredentialResponse>)
    requires Repo.Valid(t) && cred.id in t && t[cred.id] == cred && Repo.Live(cred)
    ensures Repo.Valid(r.state)
    ensures r.result.Err? <==> Call.UpdatePublicKey in faults
    ensures r.result.Err? ==> r == Outcome(t, Err(DbFailure))
    ensures r.result.Ok? ==>
      && r.state == t[cred.id := cred.(publicKey := publicKey, publicKeyFingerprint := fingerprint, publicKeyAddedAt := Some(now), updatedAt := now)]
      && r.result.value == ToResponse(r.state[cred.id])
  {
    if Call.UpdatePublicKey in faults then Outcome(t, Err(DbFailure))
    else
      var t' := Repo.UpdatePublicKey(t, cred.id, cred.userId, publicKey, fingerprint, now);
      assert t' == t[cred.id := cred.(publicKey := publicKey, publicKeyFingerprint := fingerprint, publicKeyAddedAt := Some(now), updatedAt := now)];
      var refreshed := Repo.FindByIDAndUserID(t', cred.id, cred.userId);
      Outcome(t', Ok(ToResponse(refreshed.value)))
  }

  /** `DeleteCredential`: the owner's credential is soft-deleted; nothing else changes. */
  function DeleteCredential(t: Table, id: Uuid, owner: Uuid, faults: set<Call>): (r: Outcome<Table, ()>)
    requires Repo.Valid(t)
    ensures Repo.Valid(r.state)
    ensures r.result.Err? ==> r.state == t
    ensures Lookup(t, id, owner, faults).None? <==> r.result == Err(CredentialNotFound)
    ensures r.result.Ok? <==> Lookup(t, id, owner, faults).Some? && Delete !in faults
    ensures r.result.Ok? ==> r.state == t[id := t[id].(deleted := true)]
  {
    match Lookup(t, id, owner, faults)
    case None => Outcome(t, Err(CredentialNotFound))
    case Some(_) =>
      if Delete in faults then Outcome(t, Err(DbFailure))
      else Outcome(Repo.Delete(t, id, owner), Ok(()))
  }

  /**
   * `RegenerateSecret`: a new secret and prefix from a fresh
   * `GenerateClientCredentials`, whose client ID is discarded; every other
   * field of the credential is kept.
   */
  function RegenerateSecret(t: Table, id: Uuid, owner: Uuid, idBytes: Option<seq<byte>>, secretBytes: Option<seq<byte>>, now: Time, faults: set<Call>): (r: Outcome<Table, CreateResponse>)
    requires Repo.Valid(t)
    requires idBytes.Some? ==> |idBytes.value| == 16
    requires secretBytes.Some? ==> |secretBytes.value| == 32
    ensures Repo.Valid(r.state)
    ensures r.result.Err? ==> r.state == t
    ensures Lookup(t, id, owner, faults).None? <==> r.result == Err(CredentialNotFound)
    ensures Lookup(t, id, owner, faults).Some? && (idBytes.None? || secretBytes.None?) ==> r.result == Err(RandFailure)
    ensures Lookup(t, id, owner, faults).Some? && idBytes.Some? && secretBytes.Some? && Update in faults ==> r.result == Err(DbFailure)
    ensures Lookup(t, id, owner, faults).Some? ==> (r.result.Ok? <==> idBytes.Some? && secretBytes.Some? && Update !in faults)
    ensures r.result.Ok? ==>
      var g := GenerateClientCredentials(idBytes, secretBytes);
      && id in t && g.err.None?
      && r.state == t[id := t[id].(clientSecret := g.clientSecret, clientSecretPrefix := g.secretPrefix, updatedAt := now)]
      && r.result.value.clientSecret == g.clientSecret
      && r.result.value.base == ToResponse(r.state[id])
  {
    match Lookup(t, id, owner, faults)
    case None => Outcome(t, Err(CredentialNotFound))
    case Some(cred) =>
      var g := GenerateClientCredentials(idBytes, secretBytes);
      if g.err.Some? then Outcome(t, Err(g.err.value))
      else Rotate(t, cred, g.clientSecret, g.secretPrefix, now, faults)
  }

  /**
   * The write `RegenerateSecret` makes once the credential is found and the
   * new secret drawn: the record keeps its client ID, so the unique index
   * cannot refuse it and only an injected storage error fails.
   */
  function Rotate(t: Table, cred: PartnerCredential, secret: string, prefix: string, now: Time, faults: set<Call>): (r: Outcome<Table, CreateResponse>)
    requires Repo.Valid(t) && cred.id in t && t[cred.id] == cred
    ensures Repo.Valid(r.state)
    ensures r.result.Err? <==> Update in faults
    ensures r.result.Err? ==> r == Outcome(t, Err(DbFailure))
    ensures r.result.Ok? ==>
      && r.state == t[cred.id := cred.(clientSecret := secret, clientSecretPrefix := prefix, updatedAt := now)]
      && r.result.value.clientSecret == secret
      && r.result.value.base == ToResponse(r.state[cred.id])
  {
    var rotated := cred.(clientSecret := secret, clientSecretPrefix := prefix);
    if Update in faults then Outcome(t, Err(DbFailure))
    else
      match Repo.Save(t, rotated, now)
      case Err(e) => Outcome(t, Err(e))
      case Ok(t') =>
        assert t' == t[cred.id := rotated.(updatedAt := now)];
        Outcome(t', Ok(CreateResponse(ToResponse(rotated.(updatedAt := now)), secret)))
  }

  /**
   * `ValidateCredential`: the active credential holding the client ID, if
   * its stored secret equals the one given (plain comparison). Unknown,
   * inactive and wrong-secret all give the same error. On success
   * `last_used_at` is stamped, but a failure to stamp it is ignored and the
   * record returned is the one read before the stamp.
   */
  function ValidateCredential(t: Table, clientId: string, clientSecret: string, now: Time, faults: set<Call>): (r: Outcome<Table, PartnerCredential>)
    requires Repo.Valid(t)
    ensures Repo.Valid(r.state)
    ensures r.result.Err? ==> r == Outcome(t, Err(CredentialNotFound))
    ensures r.result.Ok? <==>
      && FindByClientID !in faults
      && exists id :: id in t && Repo.Live(t[id]) && t[id].isActive && t[id].clientId == clientId && t[id].clientSecret == clientSecret
    ensures r.result.Ok? ==>
      var id := r.result.value.id;
      && id in t && r.result.value == t[id]
      && r.state == (if UpdateLastUsed in faults then t else t[id := t[id].(lastUsedAt := Some(now), updatedAt := now)])
  {
    var found := if FindByClientID in faults then None else Repo.FindByClientID(t, clientId);
    match found
    case None => Outcome(t, Err(CredentialNotFound))
    case Some(cred) =>
      if cred.clientSecret != clientSecret then Outcome(t, Err(CredentialNotFound))
      else
        var t' := if UpdateLastUsed in faults then t else Repo.UpdateLastUsed(t, cred.id, now);
        Outcome(t', Ok(cred))
  }

  /** A failing `UpdateLastUsed` never changes what `ValidateCredential` answers. */
  lemma LastUsedFailureIgnored(t: Table, clientId: string, clientSecret: string, now: Time, faults: set<Call>)
    requires Repo.Valid(t)
    ensures ValidateCredential(t, clientId, clientSecret, now, faults + {UpdateLastUsed}).result
         == ValidateCredential(t, clientId, clientSecret, now, faults - {UpdateLastUsed}).result
  {
  }
}
