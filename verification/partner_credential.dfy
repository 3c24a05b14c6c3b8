/**
 * internal/models/partner_credential.go: the SNAP partner credential record,
 * its generators, the public-key validator and the response projections.
 * Each generator is a function of the bytes `crypto/rand` returned; `None`
 * stands for a failed read.
 */
module PartnerCredentialModel {
  import opened Wrappers
  import opened Hex
  import Base64
  import Text
  import opened Uuids
  import opened Store
  import opened Errors
  import opened Crypto

  datatype PartnerCredential = PartnerCredential(
    id: Uuid,
    userId: Uuid,
    clientId: string,
    clientSecret: string,
    clientSecretPrefix: string,
    publicKey: string,
    publicKeyFingerprint: string,
    publicKeyAddedAt: Option<Time>,
    partnerName: string,
    channelId: string,
    environment: string,
    callbackUrl: string,
    ipWhitelist: seq<string>,
    isActive: bool,
    expiresAt: Option<Time>,
    lastUsedAt: Option<Time>,
    createdAt: Time,
    updatedAt: Time,
    deleted: bool
  )

  /** `BeforeCreate`: the identifier is drawn only when it is nil; nothing else changes. */
  function BeforeCreate(c: PartnerCredential, drawn: Uuid): (r: PartnerCredential)
    requires IsVersion4(drawn)
    ensures r.id != Nil
    ensures c.id != Nil ==> r == c
    ensures c.id == Nil ==> r == c.(id := drawn)
  {
    c.(id := AssignId(c.id, drawn))
  }

  /** The three outputs of `GenerateClientCredentials` and its error. */
  datatype ClientCredentials = ClientCredentials(clientId: string, clientSecret: string, secretPrefix: string, err: Option<Error>)

  const ClientIdBrand: string := "BAS"

  /**
   * Client ID: `BAS` and the first 29 hex digits of 16 random bytes (32
   * characters). Client secret: the 64 hex digits of 32 further random bytes.
   * Secret prefix: its first 8 digits and `...`. A failed read yields three
   * empty strings and the error.
   */
  function GenerateClientCredentials(idBytes: Option<seq<byte>>, secretBytes: Option<seq<byte>>): (g: ClientCredentials)
    requires idBytes.Some? ==> |idBytes.value| == 16
    requires secretBytes.Some? ==> |secretBytes.value| == 32
    ensures g.err.Some? <==> idBytes.None? || secretBytes.None?
    ensures g.err.Some? ==> g.err == Some(RandFailure) && g.clientId == "" && g.clientSecret == "" && g.secretPrefix == ""
    ensures g.err.None? ==>
      && |g.clientId| == 32 && g.clientId[..3] == ClientIdBrand && IsLowerHex(g.clientId[3..])
      && g.clientId[3..] == Hex.Encode(idBytes.value)[..29]
    ensures g.err.None? ==>
      && |g.clientSecret| == 64 && IsLowerHex(g.clientSecret)
      && Hex.Decode(g.clientSecret) == secretBytes.value
    ensures g.err.None? ==> |g.secretPrefix| == 11 && g.secretPrefix == g.clientSecret[..8] + "..."
  {
    match (idBytes, secretBytes)
    case (Some(ib), Some(sb)) =>
      var secret := SecretOf(sb);
      ClientCredentials(ClientIdOf(ib), secret, secret[..8] + "...", None)
    case _ => ClientCredentials("", "", "", Some(RandFailure))
  }

  /** The client ID drawn from 16 random bytes: the brand and the first 29 of their 32 hex digits. */
  function ClientIdOf(ib: seq<byte>): (id: string)
    requires |ib| == 16
    ensures |id| == 32 && id[..3] == ClientIdBrand && IsLowerHex(id[3..])
    ensures id[3..] == Hex.Encode(ib)[..29]
  {
    var id := ClientIdBrand + Hex.Encode(ib)[..29];
    assert id[3..] == Hex.Encode(ib)[..29];
    id
  }

  /** The client secret drawn from 32 random bytes: their 64 hex digits. */
  function SecretOf(sb: seq<byte>): (secret: string)
    requires |sb| == 32
    ensures |secret| == 64 && IsLowerHex(secret)
    ensures Hex.Decode(secret) == sb
  {
    Hex.DecodeEncode(sb);
    Hex.Encode(sb)
  }

  /** Equal client IDs come from random reads that agree on their first 14 bytes. */
  lemma ClientIdDeterminesBytes(a: seq<byte>, b: seq<byte>, sa: seq<byte>, sb: seq<byte>)
    requires |a| == 16 && |b| == 16 && |sa| == 32 && |sb| == 32
    requires GenerateClientCredentials(Some(a), Some(sa)).clientId == GenerateClientCredentials(Some(b), Some(sb)).clientId
    ensures a[..14] == b[..14]
  {
    var ea, eb := Hex.Encode(a), Hex.Encode(b);
    assert ea[..29] == eb[..29];
    assert ea[..28] == ea[..29][..28] == eb[..29][..28] == eb[..28];
    Hex.EncodePrefix(a, 14);
    Hex.EncodePrefix(b, 14);
    Hex.EncodeInjective(a[..14], b[..14]);
  }

  lemma ClientSecretInjective(ib: seq<byte>, a: seq<byte>, b: seq<byte>)
    requires |ib| == 16 && |a| == 32 && |b| == 32 && a != b
    ensures GenerateClientCredentials(Some(ib), Some(a)).clientSecret != GenerateClientCredentials(Some(ib), Some(b)).clientSecret
  {
  }

  datatype ChannelId = ChannelId(channelId: string, err: Option<Error>)

  /** `CH` and the 16 hex digits of 8 random bytes; `""` and the error on a failed read. */
  function GenerateChannelID(bytes: Option<seq<byte>>): (g: ChannelId)
    requires bytes.Some? ==> |bytes.value| == 8
    ensures g.err.Some? <==> bytes.None?
    ensures g.err.Some? ==> g == ChannelId("", Some(RandFailure))
    ensures g.err.None? ==>
      && |g.channelId| == 18 && g.channelId[..2] == "CH"
      && IsLowerHex(g.channelId[2..]) && Hex.Decode(g.channelId[2..]) == bytes.value
  {
    match bytes
    case Some(bs) =>
      Hex.DecodeEncode(bs);
      var id := "CH" + Hex.Encode(bs);
      assert id[2..] == Hex.Encode(bs);
      ChannelId(id, None)
    case None => ChannelId("", Some(RandFailure))
  }

  /** The PEM block types the validator accepts. */
  predicate IsPublicKeyBlock(blockType: string) {
    blockType == "PUBLIC KEY" || blockType == "RSA PUBLIC KEY"
  }

  /**
   * `ValidatePublicKey`: the empty text is accepted with no fingerprint;
   * otherwise the text must hold a PEM block of an accepted type whose DER
   * body parses as a PKIX or a PKCS#1 public key, and the fingerprint is the
   * lower-case hex SHA-256 of that body.
   */
  function ValidatePublicKey(c: Primitives, pemKey: string): (r: Result<string, Error>)
    ensures pemKey == "" ==> r == Ok("")
    ensures pemKey != "" && c.pemDecode(pemKey).None? ==> r == Err(NoPemBlock)
    ensures pemKey != "" && c.pemDecode(pemKey).Some? && !IsPublicKeyBlock(c.pemDecode(pemKey).value.blockType) ==>
      r == Err(UnexpectedPemType)
    ensures r.Err? ==> r.error in {NoPemBlock, UnexpectedPemType, UnparsableKey}
    ensures pemKey != "" ==>
      (r.Ok? <==>
        && c.pemDecode(pemKey).Some?
        && IsPublicKeyBlock(c.pemDecode(pemKey).value.blockType)
        && (c.parsePkix(c.pemDecode(pemKey).value.bytes) || c.parsePkcs1(c.pemDecode(pemKey).value.bytes)))
    ensures pemKey != "" && r.Ok? ==>
      && |r.value| == 64 && IsLowerHex(r.value)
      && Hex.Decode(r.value) == c.sha256(c.pemDecode(pemKey).value.bytes)
  {
    if pemKey == "" then Ok("")
    else
      match c.pemDecode(pemKey)
      case None => Err(NoPemBlock)
      case Some(block) =>
        if !IsPublicKeyBlock(block.blockType) then Err(UnexpectedPemType)
        else if !c.parsePkix(block.bytes) && !c.parsePkcs1(block.bytes) then Err(UnparsableKey)
        else
          Hex.DecodeEncode(c.sha256(block.bytes));
          Ok(Hex.Encode(c.sha256(block.bytes)))
  }

  /** Two keys whose PEM blocks carry the same DER body get the same fingerprint; the fingerprint does not depend on the PEM armour. */
  lemma FingerprintDependsOnDerOnly(c: Primitives, k1: string, k2: string)
    requires ValidatePublicKey(c, k1).Ok? && ValidatePublicKey(c, k2).Ok? && k1 != "" && k2 != ""
    requires c.pemDecode(k1).value.bytes == c.pemDecode(k2).value.bytes
    ensures ValidatePublicKey(c, k1) == ValidatePublicKey(c, k2)
  {
    var f1 := ValidatePublicKey(c, k1).value;
    var f2 := ValidatePublicKey(c, k2).value;
    assert Hex.Decode(f1) == Hex.Decode(f2);
    assert Hex.Decode(f1) == c.sha256(c.pemDecode(k1).value.bytes);
    Hex.DecodeEncode(c.sha256(c.pemDecode(k1).value.bytes));
    Hex.DecodeEncode(c.sha256(c.pemDecode(k2).value.bytes));
  }

  /** Hex digit pairs joined by colons: `ab:cd:...`. */
  function JoinPairs(s: string): (r: string)
    requires |s| >= 2 && |s| % 2 == 0
    ensures |r| == 3 * (|s| / 2) - 1
    ensures forall k :: 0 <= k < |s| / 2 ==> r[3 * k] == s[2 * k] && r[3 * k + 1] == s[2 * k + 1]
    ensures forall k :: 0 <= k < |s| / 2 - 1 ==> r[3 * k + 2] == ':'
    decreases |s|
  {
    if |s| == 2 then s
    else
      var rest := JoinPairs(s[2..]);
      JoinPairsStep(s, rest);
      s[..2] + ":" + rest
  }

  /** Prefixing the first pair and a colon to the joined remaining pairs joins all the pairs. */
  lemma JoinPairsStep(s: string, rest: string)
    requires |s| >= 4 && |s| % 2 == 0
    requires |rest| == 3 * (|s[2..]| / 2) - 1
    requires forall k :: 0 <= k < |s[2..]| / 2 ==> rest[3 * k] == s[2..][2 * k] && rest[3 * k + 1] == s[2..][2 * k + 1]
    requires forall k :: 0 <= k < |s[2..]| / 2 - 1 ==> rest[3 * k + 2] == ':'
    ensures |s[..2] + ":" + rest| == 3 * (|s| / 2) - 1
    ensures forall k :: 0 <= k < |s| / 2 ==> (s[..2] + ":" + rest)[3 * k] == s[2 * k] && (s[..2] + ":" + rest)[3 * k + 1] == s[2 * k + 1]
    ensures forall k :: 0 <= k < |s| / 2 - 1 ==> (s[..2] + ":" + rest)[3 * k + 2] == ':'
  {
    var r := s[..2] + ":" + rest;
    forall k | 0 <= k < |s| / 2
      ensures r[3 * k] == s[2 * k] && r[3 * k + 1] == s[2 * k + 1]
    {
      if k > 0 {
        var m := k - 1;
        assert r[3 * k] == rest[3 * m] && r[3 * k + 1] == rest[3 * m + 1];
        assert s[2..][2 * m] == s[2 * k] && s[2..][2 * m + 1] == s[2 * k + 1];
      }
    }
    forall k | 0 <= k < |s| / 2 - 1
      ensures r[3 * k + 2] == ':'
    {
      if k > 0 {
        assert r[3 * k + 2] == rest[3 * (k - 1) + 2];
      }
    }
  }

  /**
   * `FormatFingerprint`: shorter than 16 characters is returned as is;
   * otherwise the first 16 characters as 8 colon-joined pairs followed by `...`.
   */
  function FormatFingerprint(fingerprint: string): (r: string)
    ensures |fingerprint| < 16 ==> r == fingerprint
    ensures |fingerprint| >= 16 ==>
      && |r| == 26 && r[23..] == "..."
      && (forall k :: 0 <= k < 8 ==> r[3 * k] == fingerprint[2 * k] && r[3 * k + 1] == fingerprint[2 * k + 1])
      && (forall k :: 0 <= k < 7 ==> r[3 * k + 2] == ':')
  {
    if |fingerprint| < 16 then fingerprint
    else
      var joined := JoinPairs(fingerprint[..16]);
      assert forall k :: 0 <= k < 8 ==> fingerprint[..16][2 * k] == fingerprint[2 * k] && fingerprint[..16][2 * k + 1] == fingerprint[2 * k + 1];
      joined + "..."
  }

  /** Drops every third character: the inverse of `JoinPairs`. */
  function StripColons(r: string): (s: string)
    decreases |r|
  {
    if |r| < 3 then r[..if |r| < 2 then |r| else 2]
    else r[..2] + StripColons(r[3..])
  }

  /** The display form loses nothing but the tail: stripping the colons and the ellipsis gives back the first 16 characters. */
  lemma {:induction false} FormatFingerprintRoundTrip(fingerprint: string)
    requires |fingerprint| >= 16
    ensures StripColons(FormatFingerprint(fingerprint)[..23]) == fingerprint[..16]
  {
    var r := FormatFingerprint(fingerprint)[..23];
    StripJoined(r, fingerprint[..16]);
  }

  lemma {:induction false} StripJoined(r: string, s: string)
    requires |s| >= 2 && |s| % 2 == 0 && |r| == 3 * (|s| / 2) - 1
    requires forall k :: 0 <= k < |s| / 2 ==> r[3 * k] == s[2 * k] && r[3 * k + 1] == s[2 * k + 1]
    ensures StripColons(r) == s
    decreases |s|
  {
    assert r[0] == s[0] && r[1] == s[1] by {
      assert r[3 * 0] == s[2 * 0] && r[3 * 0 + 1] == s[2 * 0 + 1];
    }
    if |s| == 2 {
      assert r[..2] == s;
    } else {
      var r', s' := r[3..], s[2..];
      forall k | 0 <= k < |s'| / 2
        ensures r'[3 * k] == s'[2 * k] && r'[3 * k + 1] == s'[2 * k + 1]
      {
        var j := k + 1;
        assert r[3 * j] == s[2 * j] && r[3 * j + 1] == s[2 * j + 1];
        assert r'[3 * k] == r[3 * j] && r'[3 * k + 1] == r[3 * j + 1];
        assert s'[2 * k] == s[2 * j] && s'[2 * k + 1] == s[2 * j + 1];
      }
      StripJoined(r', s');
      assert StripColons(r) == r[..2] + StripColons(r');
      assert r[..2] == s[..2];
      assert s == s[..2] + s';
    }
  }

  /** Base64 of at least 100 bytes is longer than 40 symbols. */
  lemma MaskFallbackUnreachable(key: string)
    requires |key| >= 100
    ensures |Base64.Encode(Text.Bytes(key))| > 40
  {
  }

  /**
   * `maskPublicKey`: keys under 100 characters are shown whole; longer ones
   * as the first 20 and last 20 symbols of their base64 encoding around `...`.
   */
  function MaskPublicKey(key: string): (r: string)
    ensures |key| < 100 ==> r == key
    ensures |key| >= 100 ==>
      var enc := Base64.Encode(Text.Bytes(key));
      && |r| == 43
      && r[..20] == enc[..20]
      && r[20..23] == "..."
      && r[23..] == enc[|enc| - 20..]
  {
    if |key| < 100 then key
    else
      MaskFallbackUnreachable(key);
      var enc := Base64.Encode(Text.Bytes(key));
      if |enc| > 40 then enc[..20] + "..." + enc[|enc| - 20..]
      else enc
  }

  /** The listing view: no client secret and no public key; the fingerprint only in display form. */
  datatype PartnerCredentialResponse = PartnerCredentialResponse(
    id: Uuid,
    clientId: string,
    clientSecretPrefix: string,
    publicKeyFingerprint: string,
    publicKeyAddedAt: Option<Time>,
    partnerName: string,
    channelId: string,
    environment: string,
    callbackUrl: string,
    ipWhitelist: seq<string>,
    isActive: bool,
    expiresAt: Option<Time>,
    lastUsedAt: Option<Time>,
    createdAt: Time
  )

  /** The creation and rotation view: the listing view plus the plaintext secret, shown once. */
  datatype CreateResponse = CreateResponse(base: PartnerCredentialResponse, clientSecret: string)

  /** The detail view: the listing view plus the masked public key. */
  datatype DetailResponse = DetailResponse(base: PartnerCredentialResponse, publicKey: string)

  function ToResponse(c: PartnerCredential): (r: PartnerCredentialResponse)
    ensures r.publicKeyFingerprint == FormatFingerprint(c.publicKeyFingerprint)
  {
    PartnerCredentialResponse(
      c.id, c.clientId, c.clientSecretPrefix, FormatFingerprint(c.publicKeyFingerprint),
      c.publicKeyAddedAt, c.partnerName, c.channelId, c.environment, c.callbackUrl,
      c.ipWhitelist, c.isActive, c.expiresAt, c.lastUsedAt, c.createdAt)
  }

  /** The listing view does not depend on the secret, the public key, the owner, or the fingerprint beyond its first 16 characters. */
  lemma ToResponseHidesSecrets(c: PartnerCredential, secret: string, key: string, owner: Uuid, tail: string)
    requires |c.publicKeyFingerprint| >= 16
    ensures ToResponse(c.(clientSecret := secret, publicKey := key, userId := owner,
                         publicKeyFingerprint := c.publicKeyFingerprint[..16] + tail)) == ToResponse(c)
  {
    var fp := c.publicKeyFingerprint[..16] + tail;
    assert fp[..16] == c.publicKeyFingerprint[..16];
    assert FormatFingerprint(fp) == FormatFingerprint(c.publicKeyFingerprint) by {
      var a := FormatFingerprint(fp);
      var b := FormatFingerprint(c.publicKeyFingerprint);
      forall i | 0 <= i < 26
        ensures a[i] == b[i]
      {
        if i >= 23 {
          assert a[23..][i - 23] == b[23..][i - 23];
        } else if i % 3 == 2 {
          assert a[3 * (i / 3) + 2] == ':';
        } else if i % 3 == 0 {
          assert a[3 * (i / 3)] == fp[2 * (i / 3)];
        } else {
          assert a[3 * (i / 3) + 1] == fp[2 * (i / 3) + 1];
        }
      }
    }
  }

  /** `ToDetailResponse`: the listing view plus the masked key, or `""` when no key is configured. */
  function ToDetailResponse(c: PartnerCredential): (r: DetailResponse)
    ensures r.base == ToResponse(c)
    ensures c.publicKey == "" <==> r.publicKey == ""
    ensures |c.publicKey| >= 100 ==> |r.publicKey| == 43
  {
    DetailResponse(ToResponse(c), if c.publicKey != "" then MaskPublicKey(c.publicKey) else "")
  }
}
