/**
 * Properties of the credential lifecycle that span several operations:
 * secret rotation against client-credential validation, and the quotas
 * against creation and removal.
 */
module Lifecycle {
  import opened Wrappers
  import opened Hex
  import opened Uuids
  import opened Store
  import opened Errors
  import opened Crypto
  import opened PartnerCredentialModel
  import Repo = PartnerCredentialRepository
  import Service = PartnerCredentialService
  import KeyRepo = ApiKeyRepository
  import KeyService = ApiKeyService
  import ApiKeyModel

  /**
   * After a rotation that produced a different secret, the old secret no
   * longer validates and the new one does, for as long as the credential
   * stays active.
   */
  lemma RotationReplacesSecret(t: Repo.Table, id: Uuid, owner: Uuid, idBytes: Option<seq<byte>>, secretBytes: Option<seq<byte>>,
                               now: Time, later: Time, faults: set<Call>, faults': set<Call>)
    requires Repo.Valid(t)
    requires idBytes.Some? ==> |idBytes.value| == 16
    requires secretBytes.Some? ==> |secretBytes.value| == 32
    requires Service.RegenerateSecret(t, id, owner, idBytes, secretBytes, now, faults).result.Ok?
    requires t[id].isActive && FindByClientID !in faults'
    requires Service.RegenerateSecret(t, id, owner, idBytes, secretBytes, now, faults).result.value.clientSecret != t[id].clientSecret
    ensures var r := Service.RegenerateSecret(t, id, owner, idBytes, secretBytes, now, faults);
      && Service.ValidateCredential(r.state, t[id].clientId, t[id].clientSecret, later, faults').result == Err(CredentialNotFound)
      && Service.ValidateCredential(r.state, t[id].clientId, r.result.value.clientSecret, later, faults').result.Ok?
  {
    var r := Service.RegenerateSecret(t, id, owner, idBytes, secretBytes, now, faults);
    var g := GenerateClientCredentials(idBytes, secretBytes);
    assert r.state == t[id := t[id].(clientSecret := g.clientSecret, clientSecretPrefix := g.secretPrefix, updatedAt := now)];
    OnlyHolderValidates(r.state, id, t[id].clientSecret, later, faults');
    OnlyHolderValidates(r.state, id, r.result.value.clientSecret, later, faults');
  }

  /**
   * Client IDs are unique across the table, so a client ID validates with a
   * secret exactly when the one row holding it is active and stores that
   * secret.
   */
  lemma OnlyHolderValidates(t: Repo.Table, id: Uuid, secret: string, now: Time, faults: set<Call>)
    requires Repo.Valid(t) && id in t && Repo.Live(t[id]) && t[id].isActive && FindByClientID !in faults
    ensures Service.ValidateCredential(t, t[id].clientId, secret, now, faults).result.Ok? <==> t[id].clientSecret == secret
    ensures t[id].clientSecret != secret ==> Service.ValidateCredential(t, t[id].clientId, secret, now, faults).result == Err(CredentialNotFound)
  {
    if t[id].clientSecret != secret {
      forall x | x in t && t[x].clientId == t[id].clientId
        ensures t[x].clientSecret != secret
      {
      }
    }
  }

  /** Creation keeps every user at or under five active credentials. */
  lemma CreateKeepsCredentialQuota(t: Repo.Table, owner: Uuid, input: Service.CreateInput, c: Primitives, d: Service.Draws, now: Time, faults: set<Call>)
    requires Repo.Valid(t) && Service.Shaped(d)
    requires Repo.CountByUserID(t, owner) <= Service.MaxCredentials
    ensures Repo.CountByUserID(Service.CreateCredential(t, owner, input, c, d, now, faults).state, owner) <= Service.MaxCredentials
  {
  }

  /** Deleting an active credential of a user at the quota frees a slot: the next creation is not refused for the quota. */
  lemma DeleteFreesCredentialSlot(t: Repo.Table, id: Uuid, owner: Uuid, input: Service.CreateInput, c: Primitives, d: Service.Draws, now: Time, faults: set<Call>)
    requires Repo.Valid(t) && Service.Shaped(d)
    requires id in Repo.ActiveOf(t, owner) && Repo.CountByUserID(t, owner) == Service.MaxCredentials
    requires Service.DeleteCredential(t, id, owner, faults).result.Ok?
    ensures var t' := Service.DeleteCredential(t, id, owner, faults).state;
      && Repo.CountByUserID(t', owner) == Service.MaxCredentials - 1
      && Service.CreateCredential(t', owner, input, c, d, now, faults).result != Err(MaxCredentialsReached)
  {
    var t' := Service.DeleteCredential(t, id, owner, faults).state;
    assert t' == Repo.Delete(t, id, owner);
    Repo.DeleteCounts(t, id, owner);
    assert Service.Prepare(t', owner, input, c, d, now, faults) != Err(MaxCredentialsReached);
  }

  /**
   * The slot a delete frees can be taken: when no call fails, the three reads
   * are served, the public key (if any) is accepted and the drawn key and
   * client ID are unused, the next creation succeeds.
   */
  lemma DeleteThenCreateSucceeds(t: Repo.Table, id: Uuid, owner: Uuid, input: Service.CreateInput, c: Primitives, d: Service.Draws, now: Time, faults: set<Call>)
    requires Repo.Valid(t) && Service.Shaped(d)
    requires id in Repo.ActiveOf(t, owner) && Repo.CountByUserID(t, owner) == Service.MaxCredentials
    requires Service.DeleteCredential(t, id, owner, faults).result.Ok?
    requires CountByUserID !in faults && Call.Create !in faults
    requires d.idBytes.Some? && d.secretBytes.Some? && d.channelBytes.Some?
    requires input.publicKey != "" ==> ValidatePublicKey(c, input.publicKey).Ok?
    requires d.newId !in t
    requires forall x :: x in t ==> t[x].clientId != GenerateClientCredentials(d.idBytes, d.secretBytes).clientId
    ensures Service.CreateCredential(Service.DeleteCredential(t, id, owner, faults).state, owner, input, c, d, now, faults).result.Ok?
  {
    var t' := Service.DeleteCredential(t, id, owner, faults).state;
    assert t' == Repo.Delete(t, id, owner);
    Repo.DeleteCounts(t, id, owner);
    DeleteKeepsClientIds(t, id, owner, GenerateClientCredentials(d.idBytes, d.secretBytes).clientId);
    Service.CreateSucceeds(t', owner, input, c, d, now, faults);
  }

  /** A soft delete keeps every row's key and client ID, so a client ID unused before is unused after. */
  lemma DeleteKeepsClientIds(t: Repo.Table, id: Uuid, owner: Uuid, clientId: string)
    requires Repo.Valid(t)
    requires forall x :: x in t ==> t[x].clientId != clientId
    ensures Repo.Delete(t, id, owner).Keys == t.Keys
    ensures forall x :: x in Repo.Delete(t, id, owner) ==> Repo.Delete(t, id, owner)[x].clientId != clientId
  {
    var t' := Repo.Delete(t, id, owner);
    forall x | x in t'
      ensures t'[x].clientId != clientId
    {
      assert t'[x].clientId == t[x].clientId;
    }
  }

  /** Creation keeps every user at or under ten active API keys. */
  lemma CreateKeepsKeyQuota(t: KeyRepo.Table, owner: Uuid, input: KeyService.CreateKeyInput, c: Primitives, bytes: Option<seq<byte>>,
                            salt: seq<byte>, newId: Uuid, now: Time, faults: set<Call>)
    requires KeyRepo.Valid(t) && IsVersion4(newId)
    requires bytes.Some? ==> |bytes.value| == 32
    requires KeyRepo.CountByUserID(t, owner) <= KeyService.MaxKeys
    ensures KeyRepo.CountByUserID(KeyService.CreateKey(t, owner, input, c, bytes, salt, newId, now, faults).state, owner) <= KeyService.MaxKeys
  {
  }

  /** Revoking one of the user's active keys at the quota frees a slot for the next key. */
  lemma RevokeFreesKeySlot(t: KeyRepo.Table, keyId: Uuid, owner: Uuid, input: KeyService.CreateKeyInput, c: Primitives, bytes: Option<seq<byte>>,
                           salt: seq<byte>, newId: Uuid, now: Time, later: Time, faults: set<Call>)
    requires KeyRepo.Valid(t) && IsVersion4(newId)
    requires bytes.Some? ==> |bytes.value| == 32
    requires keyId in KeyRepo.ActiveOf(t, owner) && KeyRepo.CountByUserID(t, owner) == KeyService.MaxKeys
    requires KeyService.RevokeKey(t, keyId, owner, now, faults).result.Ok?
    ensures var t' := KeyService.RevokeKey(t, keyId, owner, now, faults).state;
      KeyService.CreateKey(t', owner, input, c, bytes, salt, newId, later, faults).result != Err(MaxKeysReached)
  {
    var t' := KeyService.RevokeKey(t, keyId, owner, now, faults).state;
    assert KeyRepo.ActiveOf(t', owner) == KeyRepo.ActiveOf(t, owner) - {keyId};
  }

  /**
   * The slot a revoke frees can be taken: when no call fails, the random read
   * is served, bcrypt hashes the key and the drawn key is unused, the next
   * creation succeeds.
   */
  lemma RevokeThenCreateSucceeds(t: KeyRepo.Table, keyId: Uuid, owner: Uuid, input: KeyService.CreateKeyInput, c: Primitives, bytes: Option<seq<byte>>,
                                 salt: seq<byte>, newId: Uuid, now: Time, later: Time, faults: set<Call>)
    requires KeyRepo.Valid(t) && IsVersion4(newId)
    requires bytes.Some? && |bytes.value| == 32
    requires keyId in KeyRepo.ActiveOf(t, owner) && KeyRepo.CountByUserID(t, owner) == KeyService.MaxKeys
    requires KeyService.RevokeKey(t, keyId, owner, now, faults).result.Ok?
    requires CountByUserID !in faults && Call.Create !in faults && newId !in t
    requires c.bcryptHash(ApiKeyModel.GenerateAPIKey(bytes).fullKey, salt).Some?
    ensures KeyService.CreateKey(KeyService.RevokeKey(t, keyId, owner, now, faults).state, owner, input, c, bytes, salt, newId, later, faults).result.Ok?
  {
    var t' := KeyService.RevokeKey(t, keyId, owner, now, faults).state;
    assert KeyRepo.ActiveOf(t', owner) == KeyRepo.ActiveOf(t, owner) - {keyId};
  }
}
