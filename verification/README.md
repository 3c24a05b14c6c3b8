# Credential lifecycle of the developer-portal backend, in Dafny

This project models the credential core of a Go developer-portal backend
(Fiber + GORM + golang-jwt): the partner client-credential pairs with their
optional RSA public key, the hashed API keys, the user accounts they belong
to, the access/refresh token pair, the bearer-token middleware, and the four
groups of HTTP handlers in front of the services.

The model follows the program's layering, one Dafny module per Go file:

- `PartnerCredentialModel`, `ApiKeyModel`, `UserModel`: the records, the
  secret generators, the public-key validator and fingerprint display, and
  the response projections.
- `PartnerCredentialRepository`, `ApiKeyRepository`, `UserRepository`: each
  table is a `map` from primary key to record. A soft-deleted row stays in
  the map with `deleted` set, and every query skips it. The unique indexes
  (client ID, user email) also cover soft-deleted rows. GORM's `First` is the
  matching row with the least primary key.
- `PartnerCredentialService`, `ApiKeyService`, `AuthService`, `UserService`:
  each operation is a function from the table (and its inputs) to the table
  after it and a `Result`.
- `JwtAuth`: the middleware as a verdict on the `Authorization` header.
- `PartnerCredentialHandler`, `ApiKeyHandler`, `AuthHandler`, `UserHandler`:
  each endpoint is a function from the parsed request and the table to an
  HTTP status, an optional body and the table after it.
- `Sessions` and `Lifecycle` relate the layers: tokens against the
  middleware, quotas across create/delete/revoke, and secret rotation
  against client-credential validation.

Collaborators the code calls but whose internals are out of scope are
parameters:

- Random reads are `Option<seq<byte>>` values; `None` is a failed read.
- `uuid.New()` is a drawn version-4 identifier.
- The clock is one `now` per operation.
- SHA-256, `pem.Decode`, the two x509 parsers and bcrypt are fields of
  `Crypto.Primitives`.
- The JWT codec, signer and verifier are fields of `Jwt.Library`.
- A storage error is modelled by a `faults: set<Call>` parameter: each
  repository call named in the set fails.

Properties that only hold for a correct library are lemmas that require
`Jwt.Sound` or `Crypto.BcryptSound`.

Behaviour of the code that a caller may not expect, made explicit in the model:

- The empty public key passes validation. `PartnerCredentialService.UpdatePublicKey`
  with `""` clears the key and its fingerprint but stamps `public_key_added_at`.
  The handler refuses the empty key first, so this is reachable only by
  calling the service directly (`PartnerCredentialHandler.EmptyKeyOnlyReachesServiceDirectly`).
- `GetCredential` maps every lookup failure, a storage error included, to
  not found, so its endpoint never answers 500.
- `RefreshToken`'s key function does not check the signing method; the
  middleware's refuses anything but HMAC. The refresh endpoint still refuses
  every non-HMAC token, because the key is a byte slice and golang-jwt's
  RSA, RSA-PSS, ECDSA, EdDSA and `none` methods refuse such a key in
  `Verify`. Both readers accept exactly the same tokens (`Jwt.KeyFuncsAgree`,
  `Sessions.NonHmacRefusedByBoth`).
- golang-jwt v5 reads an `exp` or `nbf` of 0 as no such claim, so a token
  whose deadline is exactly the Unix epoch never expires
  (`Jwt.ZeroDateIsAbsent`, `Sessions.AccessTokenExpires`).
- `EmailExists` counts only live users, but the unique index on `email`
  still covers a soft-deleted user. Registering that user's email again
  fails in the insert with 500 instead of 409
  (`AuthHandler.DeletedUsersEmailGives500`).
- `ValidateKey` is a stub that rejects every key, so no API key ever updates
  `last_used_at`.
- Emails are not case-normalised.
- `pem.Decode` takes the first PEM block and ignores what follows it.
- A refresh in the same second as the issue returns the very same token
  pair, not a different access token (`AuthService.RefreshRoundTrip` with
  `later == now`).
- The quota is freed by soft delete (`DeleteCredential`).
  `PartnerCredentialRepository.Deactivate` exists but no service calls it.

## Model

| member | source | states |
|---|---|---|
| Hex.Encode | internal/models/partner_credential.go:103 | `hex.EncodeToString`: two lower-case digits per byte, high nibble first |
| Hex.DecodeEncode | internal/models/partner_credential.go:103 | hex encoding loses nothing: decoding gives the bytes back |
| Hex.EncodeInjective | internal/models/api_key.go:47 | distinct random reads give distinct hex strings |
| Hex.EncodePrefix | internal/models/api_key.go:48 | the first 2n hex digits encode exactly the first n bytes |
| Base64.Encode | internal/models/partner_credential.go:239 | `base64.StdEncoding`: four symbols for every three bytes, padded |
| Text.Split | internal/middleware/jwt_auth.go:24 | `strings.Split`: one more part than separators, no part contains the separator |
| Text.JoinSplit | internal/middleware/jwt_auth.go:24 | joining the parts with the separator gives the header back |
| Text.SplitPair | internal/middleware/jwt_auth.go:24-25 | `a sep b` with separator-free halves splits into exactly `[a, b]` |
| Text.ToLowerAscii | internal/middleware/jwt_auth.go:25 | `strings.ToLower` on ASCII: same length, each character lowered |
| Uuids.ToString | internal/services/auth_service.go:192 | the canonical `8-4-4-4-12` lower-hex form of an identifier |
| Uuids.Parse | internal/middleware/jwt_auth.go:77 | `uuid.Parse` accepts only the 32, 36, 38 and 45 character forms |
| Uuids.ParseToString | internal/services/auth_service.go:166-172 | parsing an identifier's canonical string gives the identifier back |
| Uuids.ToStringInjective | internal/services/auth_service.go:192 | distinct identifiers have distinct canonical strings |
| Uuids.Least | internal/repository/user_repository.go:45-52 | the least key of a non-empty set in PostgreSQL's byte order, which `First` returns |
| Store.First | internal/repository/user_repository.go:45-52 | `First` finds a row exactly when some row matches, and what it finds matches |
| Store.NewestFirst | internal/repository/partner_credential_repository.go:45-54 | `Order("created_at DESC").Find`: exactly the matching rows, each once, newest first |
| Store.InsertKeepsOrder | internal/repository/api_key_repository.go:35-44 | inserting a row at its position keeps the listing newest first |
| Jwt.ClaimsCheck | internal/middleware/jwt_auth.go:43-48 | v5's default validator passes exactly numeric-or-absent `exp` and `nbf` with `nbf <= now < exp`, where a date of 0 counts as absent; a non-numeric date, an expired token and a not-yet-valid one are told apart |
| Jwt.ZeroDateIsAbsent | internal/middleware/jwt_auth.go:43-48 | an `exp` or `nbf` of 0 gets the same verdict as no such claim at every instant: the token never expires, or is never early |
| Jwt.Parse | internal/middleware/jwt_auth.go:35-48 | `jwt.Parse` + `Valid` accepts exactly a decodable, registered-method, allowed, verified token whose date claims pass the validator |
| Jwt.SignedParses | internal/services/auth_service.go:185-223 | a token this system signs parses back to its own claims exactly while the validator accepts them |
| Jwt.ExpiryBoundary | internal/middleware/jwt_auth.go:43-48 | for a non-zero `exp`: accepted one second before (when `nbf` allows), rejected at `exp` and one second after |
| Jwt.NotBeforeBoundary | internal/middleware/jwt_auth.go:43-48 | for a non-zero `nbf`: refused one second before, accepted at `nbf` while unexpired |
| Jwt.KeyFuncsAgree | internal/services/auth_service.go:146-151 | the permissive and the HMAC-only key functions accept exactly the same tokens; a non-HMAC token fails `Verify` under the first and the key function under the second |
| PartnerCredentialModel.BeforeCreate | internal/models/partner_credential.go:82-87 | a nil id is replaced by the drawn one, a set id is kept, nothing else changes |
| PartnerCredentialModel.GenerateClientCredentials | internal/models/partner_credential.go:90-107 | error iff a read fails, with all three strings empty; otherwise `BAS` + 29 hex digits, a 64-digit secret that decodes to the read, prefix = first 8 + `...` |
| PartnerCredentialModel.ClientIdDeterminesBytes | internal/models/partner_credential.go:96 | equal client IDs come from reads agreeing on their first 14 bytes |
| PartnerCredentialModel.ClientSecretInjective | internal/models/partner_credential.go:99-103 | distinct secret reads give distinct client secrets |
| PartnerCredentialModel.GenerateChannelID | internal/models/partner_credential.go:110-116 | error iff the read fails; otherwise `CH` and the 16 hex digits of the 8 bytes |
| PartnerCredentialModel.ValidatePublicKey | internal/models/partner_credential.go:119-153 | empty is accepted with no fingerprint; otherwise no block, wrong block type, unparsable under both encodings are refused in that order; success is the hex SHA-256 of the DER body |
| PartnerCredentialModel.FingerprintDependsOnDerOnly | internal/models/partner_credential.go:149-150 | two keys with the same DER body have the same fingerprint |
| PartnerCredentialModel.FormatFingerprint | internal/models/partner_credential.go:156-168 | short input unchanged; else 8 colon-joined pairs of the first 16 characters and `...` |
| PartnerCredentialModel.FormatFingerprintRoundTrip | internal/models/partner_credential.go:156-168 | stripping the colons and ellipsis recovers the first 16 characters |
| PartnerCredentialModel.StripJoined | internal/models/partner_credential.go:161-166 | removing the colons undoes the pair joining |
| PartnerCredentialModel.MaskFallbackUnreachable | internal/models/partner_credential.go:240-243 | for keys of 100+ bytes the encoding is always longer than 40, so the unmasked fallback never runs |
| PartnerCredentialModel.MaskPublicKey | internal/models/partner_credential.go:234-244 | short keys unchanged; long keys become 20 leading + `...` + 20 trailing base64 symbols |
| PartnerCredentialModel.ToResponse | internal/models/partner_credential.go:189-206 | the listing view shows the fingerprint in its display form, never the raw one |
| PartnerCredentialModel.ToResponseHidesSecrets | internal/models/partner_credential.go:170-206 | the listing view does not depend on the secret, the key, the owner or the fingerprint tail |
| PartnerCredentialModel.ToDetailResponse | internal/models/partner_credential.go:221-232 | the listing view plus a masked key that is empty exactly when no key is set |
| ApiKeyModel.BeforeCreate | internal/models/api_key.go:32-37 | a nil id is replaced by the drawn one, a set id is kept |
| ApiKeyModel.GenerateAPIKey | internal/models/api_key.go:40-51 | error iff the read fails, with empty key; otherwise `bas_` + 64 hex digits and a 12-character prefix of it |
| ApiKeyModel.GenerateAPIKeyInjective | internal/models/api_key.go:40-51 | the key determines the random bytes it came from |
| ApiKeyModel.PrefixEncodesFirstBytes | internal/models/api_key.go:48 | the display prefix is `bas_` and the hex of the first four bytes |
| ApiKeyModel.ToResponse | internal/models/api_key.go:66-77 | the listing view copies the shown fields |
| ApiKeyModel.ToResponseHidesHash | internal/models/api_key.go:53-77 | the listing view does not depend on the hash or the owner |
| ApiKeyModel.ToResponseDeterminesShownFields | internal/models/api_key.go:53-77 | two keys with the same view differ only in hidden fields |
| UserModel.BeforeCreate | internal/models/user.go:30-35 | a nil id is replaced by the drawn one, a set id is kept |
| UserModel.ToResponse | internal/models/user.go:50-61 | the profile view copies the shown fields |
| UserModel.ToResponseHidesSecrets | internal/models/user.go:37-61 | the profile view does not depend on the password hash or the provider account id |
| PartnerCredentialRepository.Inserted | internal/models/partner_credential.go:61 | the stored row: drawn id, environment defaulted to `sandbox`, both timestamps now, nothing else changed |
| PartnerCredentialRepository.Create | internal/repository/partner_credential_repository.go:20-22 | fails iff the key or the client ID is taken (deleted rows included); otherwise adds exactly the new row |
| PartnerCredentialRepository.FindByID | internal/repository/partner_credential_repository.go:25-32 | found iff live and active |
| PartnerCredentialRepository.FindByIDAndUserID | internal/repository/partner_credential_repository.go:35-42 | found iff live and owned, active or not |
| PartnerCredentialRepository.FindByUserID | internal/repository/partner_credential_repository.go:45-54 | the owner's live active rows, each exactly once (as many as `CountByUserID`), ordered by `created_at` descending |
| PartnerCredentialRepository.FindByClientID | internal/repository/partner_credential_repository.go:57-66 | found iff some live active row holds the client ID, and then it is that row |
| PartnerCredentialRepository.Save | internal/repository/partner_credential_repository.go:69-71 | fails iff another row holds the client ID; otherwise the whole record is written with `updated_at` now |
| PartnerCredentialRepository.UpdatePublicKey | internal/repository/partner_credential_repository.go:74-82 | only the owner's live row changes, and only its key, fingerprint, added-at and updated-at |
| PartnerCredentialRepository.Delete | internal/repository/partner_credential_repository.go:85-88 | only the owner's live row is soft-deleted; the row stays |
| PartnerCredentialRepository.Deactivate | internal/repository/partner_credential_repository.go:91-95 | only the owner's live row changes: `is_active` cleared and `updated_at` set to now |
| PartnerCredentialRepository.UpdateLastUsed | internal/repository/partner_credential_repository.go:98-102 | only that live row changes, whoever owns it: `last_used_at` and `updated_at` set to now |
| PartnerCredentialRepository.CountByUserID | internal/repository/partner_credential_repository.go:105-111 | the number of the owner's live active rows |
| PartnerCredentialRepository.ExistsByClientID | internal/repository/partner_credential_repository.go:114-120 | true iff some live row holds the client ID |
| PartnerCredentialRepository.CreateCounts | internal/repository/partner_credential_repository.go:20-22 | an active insert raises its owner's count by one and no other owner's |
| PartnerCredentialRepository.ActiveOfInsert | internal/repository/partner_credential_repository.go:20-22 | a new row joins exactly its own owner's active set, and only when it is live and active |
| PartnerCredentialRepository.DeleteCounts | internal/repository/partner_credential_repository.go:85-88 | soft-deleting one of the owner's active credentials lowers the owner's count by one |
| PartnerCredentialRepository.DeactivateCounts | internal/repository/partner_credential_repository.go:91-95 | deactivating an active row lowers the owner's count by one |
| ApiKeyRepository.Inserted | internal/models/api_key.go:19 | the stored row: drawn id, environment defaulted to `sandbox`, both timestamps now |
| ApiKeyRepository.Create | internal/repository/api_key_repository.go:20-22 | fails iff the primary key is taken; otherwise adds exactly the new row |
| ApiKeyRepository.FindByID | internal/repository/api_key_repository.go:25-32 | found iff live, whoever owns it |
| ApiKeyRepository.FindByUserID | internal/repository/api_key_repository.go:35-44 | the owner's live active keys, each exactly once (as many as `CountByUserID`), ordered by `created_at` descending |
| ApiKeyRepository.FindByKeyHash | internal/repository/api_key_repository.go:47-56 | found iff some live active key has that hash |
| ApiKeyRepository.Save | internal/repository/api_key_repository.go:59-61 | the whole record is written with `updated_at` now; other rows untouched |
| ApiKeyRepository.Revoke | internal/repository/api_key_repository.go:64-68 | only the owner's live key is deactivated; another owner's key is untouched |
| ApiKeyRepository.CountByUserID | internal/repository/api_key_repository.go:71-77 | the number of the owner's live active keys |
| ApiKeyRepository.CreateCounts | internal/repository/api_key_repository.go:20-22 | an active insert raises its owner's count by one |
| ApiKeyRepository.ActiveOfInsert | internal/repository/api_key_repository.go:20-22 | a new live, active key joins its owner's active set, which did not hold it before |
| ApiKeyRepository.RevokeCounts | internal/repository/api_key_repository.go:64-68 | revoking an active key lowers the count by one; anything else leaves it |
| UserRepository.Inserted | internal/models/user.go:18 | the stored row: drawn id, provider defaulted to `local`, both timestamps now |
| UserRepository.Create | internal/repository/user_repository.go:20-22 | fails iff the key or the email is taken (deleted rows included); otherwise adds exactly the new row |
| UserRepository.FindByID | internal/repository/user_repository.go:25-32 | found iff live |
| UserRepository.FindByEmail | internal/repository/user_repository.go:35-42 | found iff a live user has the email, and then it is that user |
| UserRepository.FindByProvider | internal/repository/user_repository.go:45-52 | found iff a live user matches provider and account id, and what is found matches |
| UserRepository.Save | internal/repository/user_repository.go:55-57 | fails iff another row has the email; otherwise the record is written |
| UserRepository.Delete | internal/repository/user_repository.go:60-62 | the user is soft-deleted and no longer found |
| UserRepository.EmailExists | internal/repository/user_repository.go:65-69 | true iff the count succeeds and a live user has the email |
| UserRepository.DeletedEmailStillTaken | internal/repository/user_repository.go:60-69 | after a soft delete the email is not reported, yet a new row with it is refused |
| PartnerCredentialService.Lookup | internal/services/partner_credential_service.go:125-128 | the owner's live credential, or none when the query fails |
| PartnerCredentialService.Prepare | internal/services/partner_credential_service.go:39-93 | checks in source order: a failed count is `DbFailure` (and only then), the quota `MaxCredentialsReached`, a failed read under the quota `RandFailure`, and `InvalidPublicKey` exactly when everything before passed and a non-empty key fails validation; succeeds iff under quota, all reads succeed and the key is empty or valid; the record carries the inputs, the generated strings and the defaulted environment |
| PartnerCredentialService.CreateCredential | internal/services/partner_credential_service.go:39-106 | a failed check returns its error with no change; once the checks pass, it succeeds iff the insert call does not fail and the drawn key and client ID are unused (deleted rows included), and otherwise fails with `DbFailure`; on success exactly one row is added, it is the prepared record, the owner's count rises by one, and the response carries that row's secret |
| PartnerCredentialService.Persist | internal/services/partner_credential_service.go:95-105 | the insert fails (with `DbFailure`, no change) iff the call fails or the key or client ID is taken; otherwise it adds the record under a fresh key, raises the owner's count by one and answers with that row and its secret |
| PartnerCredentialService.CreateSucceeds | internal/services/partner_credential_service.go:39-106 | under the quota, with no failing call, all reads served, an empty or valid public key and an unused key and client ID, creation succeeds |
| PartnerCredentialService.ListCredentials | internal/services/partner_credential_service.go:109-121 | fails iff the query fails; otherwise the views of the owner's active credentials, each once, newest first |
| PartnerCredentialService.ViewsListed | internal/services/partner_credential_service.go:115-118 | the listing views of exactly the owner's active rows are exactly the owner's listed views |
| PartnerCredentialService.GetCredential | internal/services/partner_credential_service.go:124-132 | every failure is `CredentialNotFound`; success iff the owner's live credential exists |
| PartnerCredentialService.Merge | internal/services/partner_credential_service.go:150-157 | name and environment replaced only by non-empty input; callback and whitelist always; nothing else changes |
| PartnerCredentialService.MergeIdempotent | internal/services/partner_credential_service.go:150-157 | applying the same update twice equals applying it once |
| PartnerCredentialService.MergeEmptyKeeps | internal/services/partner_credential_service.go:150-157 | an update echoing the current values with empty name and environment changes nothing |
| PartnerCredentialService.UpdateCredential | internal/services/partner_credential_service.go:143-165 | not found iff the lookup fails; on success only that row changes, to the merge |
| PartnerCredentialService.UpdatePublicKey | internal/services/partner_credential_service.go:173-195 | `CredentialNotFound` iff the lookup fails, then `InvalidPublicKey` for a refused key, both with no change; for a found credential and an accepted key, Ok iff the write call does not fail, else `DbFailure`; success writes the key, its fingerprint and the time |
| PartnerCredentialService.DeleteCredential | internal/services/partner_credential_service.go:198-206 | succeeds iff found and the delete succeeds; only that row is soft-deleted |
| PartnerCredentialService.RegenerateSecret | internal/services/partner_credential_service.go:209-236 | `CredentialNotFound` iff the lookup fails; for a found credential, `RandFailure` if a read fails, `DbFailure` if only the write fails, and Ok iff both reads are served and the write call does not fail; only that row changes: its secret, prefix and `updated_at`; the response carries the new secret |
| PartnerCredentialService.Rotate | internal/services/partner_credential_service.go:221-235 | fails iff the write fails, leaving the table alone; otherwise only that row's secret, prefix and updated-at change and the response carries the stored secret |
| PartnerCredentialService.Rekey | internal/services/partner_credential_service.go:186-194 | fails iff the write fails, leaving the table alone; otherwise only that row's key, fingerprint, added-at and updated-at change and the response shows the stored row |
| PartnerCredentialService.ValidateCredential | internal/services/partner_credential_service.go:239-254 | succeeds iff a live active row has the client ID and the secret; every failure is the same error; the last-used stamp is best-effort |
| PartnerCredentialService.LastUsedFailureIgnored | internal/services/partner_credential_service.go:249-251 | a failing last-used write never changes the answer |
| ApiKeyService.ListKeys | internal/services/api_key_service.go:36-48 | fails iff the query fails; otherwise the views of the owner's active keys, each once, newest first |
| ApiKeyService.ViewsListed | internal/services/api_key_service.go:42-45 | the listing views of exactly the owner's active keys are exactly the owner's listed views |
| ApiKeyService.CreateKey | internal/services/api_key_service.go:51-91 | a failed count gives `DbFailure`, the quota `MaxKeysReached`, a failed read under the quota `RandFailure`, all with no change; succeeds iff under quota, the read is served, bcrypt hashes the key, the insert call does not fail and the drawn key is unused; success adds one row whose prefix is the key's first 12 characters and whose hash is bcrypt of the key |
| ApiKeyService.RevokeKey | internal/services/api_key_service.go:94-106 | missing and foreign keys give the same error; success deactivates exactly that key |
| ApiKeyService.RevokeIdempotent | internal/services/api_key_service.go:94-106 | revoking twice succeeds and changes only `updated_at` the second time |
| ApiKeyService.ValidateKey | internal/services/api_key_service.go:109-117 | every key is refused |
| AuthService.AccessClaims | internal/services/auth_service.go:186-197 | subject, email, type `access`, expiry `now + hours*3600`, issued now, no `nbf` |
| AuthService.RefreshClaims | internal/services/auth_service.go:186-210 | subject, type `refresh`, expiry `now + 7*hours*3600`, no email, issued now, no `nbf` |
| AuthService.GenerateAuthResponse | internal/services/auth_service.go:185-223 | both tokens signed with the secret; `expiresIn` is the access lifetime; the profile view |
| AuthService.Register | internal/services/auth_service.go:58-84 | taken email refused with no change; a failed hash gives `HashFailure`; succeeds iff the email is not reported taken, bcrypt hashes the password, the insert call does not fail and neither the drawn key nor the email is held by any row, deleted ones included; success adds one local user whose hash is bcrypt of the password |
| AuthService.Login | internal/services/auth_service.go:87-102 | with no storage error, unknown email and wrong password give the same error; success iff the stored hash matches |
| AuthService.RegisterThenLogin | internal/services/auth_service.go:58-102 | with sound bcrypt, the registered password logs in |
| AuthService.GoogleAuth | internal/services/auth_service.go:105-141 | a failed lookup is `DbFailure` with no change; a linked account wins; else an email match is relinked, succeeding iff the write call does not fail; else a verified Google account is created, succeeding iff the insert call does not fail and the drawn key and the email are unused |
| AuthService.GoogleCreate | internal/services/auth_service.go:123-134 | succeeds iff the insert call does not fail and the drawn key and the email are unused; a failure is `DbFailure` and leaves the table alone; success adds one fresh verified Google user with no password and answers with its token pair |
| AuthService.GoogleLink | internal/services/auth_service.go:115-122 | fails iff the write call fails (the email is the user's own, so the unique index never objects), with `DbFailure` and no change; success relinks only that user to Google with the given provider ID and answers with its token pair |
| AuthService.Enrol | internal/services/auth_service.go:78-83 | the insert ending registration and Google sign-up fails (with `DbFailure`, no change) iff the call fails or the drawn key or the email is held by any row; otherwise it adds exactly the new user and answers with its token pair |
| AuthService.RefreshToken | internal/services/auth_service.go:144-182 | succeeds iff the token verifies, has type `refresh`, a string UUID subject and a live user |
| AuthService.RefreshRoundTrip | internal/services/auth_service.go:144-182 | an issued refresh token yields a fresh pair for the same user until it expires |
| AuthService.AccessTokenNotRefreshable | internal/services/auth_service.go:159-162 | an access token is never accepted for refresh |
| AuthService.NonHmacNotRefreshable | internal/services/auth_service.go:146-151 | a token whose method is not HMAC never refreshes: the byte-slice key fails `Verify` |
| AuthService.RefreshOutlivesAccess | internal/services/auth_service.go:186-188 | the refresh token outlives the access token by six lifetimes |
| UserService.Find | internal/services/user_service.go:31-34 | the live user, or the lookup's error |
| UserService.GetProfile | internal/services/user_service.go:30-38 | succeeds iff the user is found, with its profile view |
| UserService.Overwrite | internal/services/user_service.go:47-64 | a field is replaced exactly when the input is non-empty |
| UserService.MergeProfile | internal/services/user_service.go:47-64 | each of the six fields follows the overwrite rule; nothing else changes |
| UserService.MergeEmptyIdentity | internal/services/user_service.go:47-64 | an all-empty input changes nothing |
| UserService.MergeIdempotent | internal/services/user_service.go:47-64 | applying the same input twice equals applying it once |
| UserService.MergeCompose | internal/services/user_service.go:47-64 | two updates in a row equal one merged update |
| UserService.UpdateProfile | internal/services/user_service.go:41-72 | a failed lookup returns its error and writes nothing; after a successful lookup it succeeds iff the write call does not fail (the merge keeps the email), else `DbFailure`; success writes only the merged user |
| JwtAuth.BearerToken | internal/middleware/jwt_auth.go:24-32 | a token iff the header has exactly one space and a `bearer` scheme in any case; the header is scheme, space, token |
| JwtAuth.BearerRoundTrip | internal/middleware/jwt_auth.go:24-32 | any spelling of `bearer`, a space and a space-free token yield that token |
| JwtAuth.SpacesMustBeOne | internal/middleware/jwt_auth.go:24-30 | a header with no space or several is refused |
| JwtAuth.Authenticate | internal/middleware/jwt_auth.go:12-91 | the checks in order, each with its own reason; passes iff an HMAC-signed unexpired access token has a UUID subject |
| JwtAuth.Status | internal/middleware/jwt_auth.go:17-82 | every refusal is 401 |
| JwtAuth.GetUserID | internal/middleware/jwt_auth.go:94-100 | the stored id, or the nil UUID |
| JwtAuth.HandlerSeesSubject | internal/middleware/jwt_auth.go:77-89 | behind the middleware the handler's user id is the token's subject |
| Sessions.AccessTokenAuthenticates | internal/middleware/jwt_auth.go:12-91 | an issued access token passes the middleware as its user until expiry |
| Sessions.AccessTokenExpires | internal/middleware/jwt_auth.go:43-48 | from its expiry on, the access token is refused; if that expiry is exactly 0 it is read as none and the token still passes as its user |
| Sessions.RefreshTokenRejectedByMiddleware | internal/middleware/jwt_auth.go:59-66 | a refresh token never passes the middleware: wrong type while unexpired (always, for an expiry of 0), expired afterwards |
| Sessions.NonHmacRefusedByBoth | internal/middleware/jwt_auth.go:35-48 | a non-HMAC token is refused by the middleware and by the refresh service alike |
| Lifecycle.RotationReplacesSecret | internal/services/partner_credential_service.go:209-254 | after rotation the old secret no longer validates and the new one does |
| Lifecycle.OnlyHolderValidates | internal/services/partner_credential_service.go:239-254 | a live, active credential validates exactly for its stored secret; any other secret is CredentialNotFound |
| Lifecycle.CreateKeepsCredentialQuota | internal/services/partner_credential_service.go:41-47 | creation never takes a user past five active credentials |
| Lifecycle.DeleteFreesCredentialSlot | internal/services/partner_credential_service.go:198-206 | deleting one credential at the quota lets the next creation pass the quota |
| Lifecycle.DeleteThenCreateSucceeds | internal/services/partner_credential_service.go:39-106 | after deleting one credential at the quota, the next creation succeeds when no call fails, the reads are served, the key (if any) is valid and the drawn key and client ID are unused |
| Lifecycle.DeleteKeepsClientIds | internal/repository/partner_credential_repository.go:85-88 | a soft delete keeps every key and client ID, so a client ID unused before stays unused |
| Lifecycle.CreateKeepsKeyQuota | internal/services/api_key_service.go:52-59 | creation never takes a user past ten active keys |
| Lifecycle.RevokeFreesKeySlot | internal/services/api_key_service.go:94-106 | revoking one key at the quota frees a slot |
| Lifecycle.RevokeThenCreateSucceeds | internal/services/api_key_service.go:51-106 | after revoking one key at the quota, the next creation succeeds when no call fails, the read is served, bcrypt hashes the key and the drawn key is unused |
| PartnerCredentialHandler.ListCredentials | internal/handlers/partner_credential_handler.go:31-43 | 500 iff the query fails; otherwise 200 with the caller's active credentials, each once, newest first |
| PartnerCredentialHandler.GetCredential | internal/handlers/partner_credential_handler.go:56-83 | 400 iff the id is malformed; never 500; 200 iff the caller owns the live credential |
| PartnerCredentialHandler.CreateFailureStatus | internal/handlers/partner_credential_handler.go:124-141 | quota 409, bad key 400, anything else 500 |
| PartnerCredentialHandler.CreateCredential | internal/handlers/partner_credential_handler.go:98-144 | 400 iff the body, name or environment fails or the service refuses the public key, with no change; 409 iff at quota; 201 iff admitted and the service succeeds, storing a row with a known environment |
| PartnerCredentialHandler.UpdateCredential | internal/handlers/partner_credential_handler.go:160-202 | 400 iff id, body or environment fails; 404 iff not the caller's; 500 iff the write fails; 200 writes the merge |
| PartnerCredentialHandler.UpdatePublicKey | internal/handlers/partner_credential_handler.go:218-266 | 400 iff the id, body or key is missing or malformed or the key is refused; 404 iff not the caller's; 500 iff the key write fails; success always stores a non-empty validated key |
| PartnerCredentialHandler.EmptyKeyOnlyReachesServiceDirectly | internal/handlers/partner_credential_handler.go:238-243 | the service accepts the empty key, the endpoint refuses it with no change |
| PartnerCredentialHandler.RegenerateSecret | internal/handlers/partner_credential_handler.go:279-306 | 400 iff malformed id; 404 iff not the caller's; 500 iff a read or the write fails; 200 returns the stored new secret and keeps the client ID |
| PartnerCredentialHandler.DeleteCredential | internal/handlers/partner_credential_handler.go:319-345 | 400, 404, 500 as above; 204 iff the row is soft-deleted |
| ApiKeyHandler.Normalized | internal/handlers/api_key_handler.go:76-78 | the empty environment is read as `sandbox`; others are kept |
| ApiKeyHandler.ListKeys | internal/handlers/api_key_handler.go:31-43 | 500 iff the query fails; otherwise 200 with the caller's active keys, each once, newest first |
| ApiKeyHandler.CreateKey | internal/handlers/api_key_handler.go:58-102 | 400 iff body, name or defaulted environment fails; 409 iff at quota; 201 iff admitted, under quota, the read is served, bcrypt hashes the key, the insert call does not fail and the drawn key is unused; 201 stores the defaulted environment and raises the count by one |
| ApiKeyHandler.RevokeKey | internal/handlers/api_key_handler.go:115-141 | 400 iff malformed id; 404 iff not the caller's; 204 iff the key is deactivated |
| AuthHandler.Register | internal/handlers/auth_handler.go:31-70 | 400 iff a field is missing or the password is under 8 bytes; 409 iff the email is taken; 201 iff admitted, the email is not reported taken, bcrypt hashes the password, the insert call does not fail and the drawn key and email are unused; 201 adds one local user |
| AuthHandler.Login | internal/handlers/auth_handler.go:83-114 | 400 iff a field is missing; 500 iff the lookup fails; 200 iff the password matches |
| AuthHandler.RefreshToken | internal/handlers/auth_handler.go:167-192 | 400 iff the token is missing; any service error is 401; never 500 |
| AuthHandler.ShortPasswordRefused | internal/handlers/auth_handler.go:48-53 | a password under 8 bytes is 400 with no change |
| AuthHandler.DeletedUsersEmailGives500 | internal/handlers/auth_handler.go:55-66 | a soft-deleted user's email passes the existence check and then fails the insert: 500 |
| AuthHandler.AccessTokenGets401 | internal/handlers/auth_handler.go:183-189 | an access token presented for refresh is 401 |
| AuthHandler.RefreshTokenGets200 | internal/handlers/auth_handler.go:183-191 | an issued refresh token is 200 with a fresh pair until it expires |
| UserHandler.GetProfile | internal/handlers/user_handler.go:28-40 | 404 on any failure; 200 iff the caller's live record exists |
| UserHandler.UpdateProfile | internal/handlers/user_handler.go:54-81 | 400 iff the body or full name is missing; 200 iff admitted, the lookup finds the live user and the write call does not fail, so every other case is 500; success always replaces the full name |

## Left out

- Concurrency: the quota check and the insert are two calls with no transaction between them. Each operation is modelled as atomic, so a race between two creations is not modelled.
- Error reply texts: only the status of an error reply is modelled, not its `Error`/`Message` fields.
- Fiber request parsing: a body is `None` when `BodyParser` fails. Which JSON `BodyParser` rejects is not modelled.
- Cryptography: SHA-256, PEM decoding, x509 parsing, bcrypt and the JWT codec are abstract functions. Constant-time comparison and entropy quality cannot be expressed in this model.
- Collision probability: the generators are proved injective on their random input. The probability of two draws colliding is not modelled.
- JWT claim `iat`: golang-jwt v5 checks it only when `WithIssuedAt` is set, which this code does not do, so the model does not check it. The v5 checks on `exp` and `nbf` are modelled, including the refusal of a non-numeric date.
- Jwt.Parse: a date claim is an integer number of seconds, as every token this system issues carries. A fractional JSON date, which v5 truncates to its one-second precision after testing it against 0, is not modelled.
- `time.Duration` overflow for very large `JWT_EXPIRY_HOURS`: the hour count is an unbounded integer.
- Configuration loading (`internal/config/config.go`): the secret and the expiry hours are the parameter `AuthService.Config`.
- `StringArray.Value`/`Scan` (JSON column encoding of the IP whitelist) are storage plumbing. A nil and an empty whitelist are both the empty sequence.
- The `default:true` tag on `is_active`: an insert keeps the flag it is given. Both services always insert active rows, so GORM's replacement of a zero `false` by the default never arises.
- Strings: a Go string is a byte string, and the model's `string` has one character per byte, so `|s|` is Go's `len(s)`. Characters at or above 256 stand for no byte and are outside the model: on them `Text.Bytes` truncates mod 256, and the lengths the code tests (the eight-byte password minimum, the 100-byte threshold of the key mask, the length switch of `uuid.Parse`) count characters, not UTF-8 bytes.
- Column sizes and `validate` struct tags: nothing in the code enforces them, and the migration that would set column sizes is not part of this model.
- Google OAuth handler stubs `GoogleLogin` and `GoogleCallback`: they return fixed JSON with no credential logic. `AuthService.GoogleAuth` is modelled.
- `cmd/server/main.go` route wiring and `internal/handlers/error.go`: no domain logic.
- Constructors `New*Service` and `New*Repository`: they only store their arguments.
- User fields: the profile service writes `FirstName`, `LastName` and `ProfilePicture`, which the `User` struct in internal/models/user.go does not declare. The model adds the three fields to `UserModel.User`.
- PartnerCredentialService.UpdatePublicKey: the re-read after the write is taken to succeed. The code ignores that read's error and would dereference a nil record.
- PartnerCredentialService.CreateCredential: one `now` stands for the several `time.Now()` calls of one request.
- Store.NewestFirst: rows with equal `created_at` may come in any order, as PostgreSQL does not fix the order of ties.
- `ErrClientIDExists` is declared in the service but never returned, so it has no path in the model besides its `Errors.Error` constructor.
