/** The error values of the credential core and the outcome of a store-changing operation. */
module Errors {
  import opened Wrappers

  datatype Error =
    // sentinel errors of internal/services/partner_credential_service.go
    | CredentialNotFound
    | MaxCredentialsReached
    | InvalidPublicKey
    | ClientIdExists
    // sentinel errors of internal/services/api_key_service.go
    | MaxKeysReached
    | KeyNotFound
    | KeyValidationNotImplemented
    // sentinel errors of internal/services/auth_service.go
    | InvalidCredentials
    | EmailExists
    | UserNotFound
    // the ad-hoc errors RefreshToken builds with errors.New
    | InvalidRefreshToken
    | InvalidTokenType
    | InvalidUserIdInToken
    | InvalidUserIdFormat
    // the ad-hoc errors ValidatePublicKey builds with errors.New
    | NoPemBlock
    | UnexpectedPemType
    | UnparsableKey
    // errors of the collaborators
    | RecordNotFound   // gorm.ErrRecordNotFound
    | DbFailure        // any other storage error, including a violated unique index
    | RandFailure      // crypto/rand could not fill the buffer
    | HashFailure      // bcrypt.GenerateFromPassword failed

  /** The table after an operation together with what the operation returned. */
  datatype Outcome<S, T> = Outcome(state: S, result: Result<T, Error>)

  /**
   * The repository calls a service operation makes. An operation is given
   * the set of calls that fail with a storage error on this run.
   */
  datatype Call =
    | CountByUserID
    | FindByID
    | FindByIDAndUserID
    | FindByUserID
    | FindByClientID
    | FindByEmail
    | EmailCount       // the count query of UserRepository.EmailExists
    | FindByProvider
    | Create
    | Update
    | UpdatePublicKey
    | Delete
    | UpdateLastUsed
    | Revoke
}
