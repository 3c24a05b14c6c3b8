/** internal/models/api_key.go: the developer API key record, its generator and its response projection. */
module ApiKeyModel {
  import opened Wrappers
  import opened Hex
  import opened Uuids
  import opened Store
  import opened Errors

  datatype ApiKey = ApiKey(
    id: Uuid,
    userId: Uuid,
    name: string,
    keyPrefix: string,
    keyHash: string,
    environment: string,
    isActive: bool,
    lastUsedAt: Option<Time>,
    expiresAt: Option<Time>,
    createdAt: Time,
    updatedAt: Time,
    deleted: bool
  )

  /** `BeforeCreate`: the identifier is drawn only when it is nil; nothing else changes. */
  function BeforeCreate(k: ApiKey, drawn: Uuid): (r: ApiKey)
    requires IsVersion4(drawn)
    ensures r.id != Nil
    ensures k.id != Nil ==> r == k
    ensures k.id == Nil ==> r == k.(id := drawn)
  {
    k.(id := AssignId(k.id, drawn))
  }

  const KeyBrand: string := "bas_"

  /** The plaintext key, its display prefix, and the error of the random read. */
  datatype GeneratedKey = GeneratedKey(fullKey: string, prefix: string, err: Option<Error>)

  /**
   * `GenerateAPIKey`: `bas_` and the 64 hex digits of 32 random bytes (68
   * characters); the prefix is the first 12 characters. A failed read yields
   * two empty strings and the error.
   */
  function GenerateAPIKey(bytes: Option<seq<byte>>): (g: GeneratedKey)
    requires bytes.Some? ==> |bytes.value| == 32
    ensures g.err.Some? <==> bytes.None?
    ensures g.err.Some? ==> g == GeneratedKey("", "", Some(RandFailure))
    ensures g.err.None? ==>
      && |g.fullKey| == 68 && g.fullKey[..4] == KeyBrand
      && IsLowerHex(g.fullKey[4..]) && Hex.Decode(g.fullKey[4..]) == bytes.value
    ensures g.err.None? ==> |g.prefix| == 12 && g.prefix <= g.fullKey && g.prefix[..4] == KeyBrand
  {
    match bytes
    case Some(bs) =>
      Hex.DecodeEncode(bs);
      var key := KeyBrand + Hex.Encode(bs);
      assert key[4..] == Hex.Encode(bs);
      GeneratedKey(key, key[..12], None)
    case None => GeneratedKey("", "", Some(RandFailure))
  }

  /** Distinct random reads give distinct keys, so the key determines the bytes it came from. */
  lemma GenerateAPIKeyInjective(a: seq<byte>, b: seq<byte>)
    requires |a| == 32 && |b| == 32
    requires GenerateAPIKey(Some(a)).fullKey == GenerateAPIKey(Some(b)).fullKey
    ensures a == b
  {
  }

  /** The display prefix is `bas_` and the first eight hex digits: the first four random bytes. */
  lemma PrefixEncodesFirstBytes(bs: seq<byte>)
    requires |bs| == 32
    ensures GenerateAPIKey(Some(bs)).prefix == KeyBrand + Hex.Encode(bs[..4])
  {
    var g := GenerateAPIKey(Some(bs));
    Hex.EncodePrefix(bs, 4);
    assert g.prefix[4..] == g.fullKey[4..][..8];
  }

  /** The listing view, without the key hash or the owner. */
  datatype ApiKeyResponse = ApiKeyResponse(
    id: Uuid,
    name: string,
    keyPrefix: string,
    environment: string,
    isActive: bool,
    lastUsedAt: Option<Time>,
    expiresAt: Option<Time>,
    createdAt: Time
  )

  /** The creation view: the listing view plus the plaintext key, shown once. */
  datatype CreateResponse = CreateResponse(base: ApiKeyResponse, key: string)

  function ToResponse(k: ApiKey): (r: ApiKeyResponse)
    ensures r.id == k.id && r.name == k.name && r.keyPrefix == k.keyPrefix && r.environment == k.environment
    ensures r.isActive == k.isActive && r.lastUsedAt == k.lastUsedAt && r.expiresAt == k.expiresAt && r.createdAt == k.createdAt
  {
    ApiKeyResponse(k.id, k.name, k.keyPrefix, k.environment, k.isActive, k.lastUsedAt, k.expiresAt, k.createdAt)
  }

  /** The listing view does not depend on the key hash, the owner or the bookkeeping fields. */
  lemma ToResponseHidesHash(k: ApiKey, hash: string, owner: Uuid, updated: Time, deleted: bool)
    ensures ToResponse(k.(keyHash := hash, userId := owner, updatedAt := updated, deleted := deleted)) == ToResponse(k)
  {
  }

  /** Two keys with the same listing view differ at most in the fields it hides. */
  lemma ToResponseDeterminesShownFields(a: ApiKey, b: ApiKey)
    requires ToResponse(a) == ToResponse(b)
    ensures a.(keyHash := b.keyHash, userId := b.userId, updatedAt := b.updatedAt, deleted := b.deleted) == b
  {
  }
}
