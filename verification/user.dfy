/**
 * internal/models/user.go: the developer account record and its safe
 * projection. The record also carries `FirstName`, `LastName` and
 * `ProfilePicture`, which `UpdateProfile` writes but `models.User` does not
 * declare.
 */
module UserModel {
  import opened Uuids
  import opened Store

  datatype User = User(
    id: Uuid,
    email: string,
    passwordHash: string,
    fullName: string,
    firstName: string,
    lastName: string,
    jobTitle: string,
    company: string,
    profilePicture: string,
    provider: string,
    providerId: string,
    isVerified: bool,
    createdAt: Time,
    updatedAt: Time,
    deleted: bool
  )

  const LocalProvider: string := "local"
  const GoogleProvider: string := "google"

  /** `BeforeCreate`: the identifier is drawn only when it is nil; nothing else changes. */
  function BeforeCreate(u: User, drawn: Uuid): (r: User)
    requires IsVersion4(drawn)
    ensures r.id != Nil
    ensures u.id != Nil ==> r == u
    ensures u.id == Nil ==> r == u.(id := drawn)
  {
    u.(id := AssignId(u.id, drawn))
  }

  /** The profile view, without the password hash or the provider's account id. */
  datatype UserResponse = UserResponse(
    id: Uuid,
    email: string,
    fullName: string,
    jobTitle: string,
    company: string,
    provider: string,
    isVerified: bool,
    createdAt: Time
  )

  function ToResponse(u: User): (r: UserResponse)
    ensures r.id == u.id && r.email == u.email && r.fullName == u.fullName && r.jobTitle == u.jobTitle
    ensures r.company == u.company && r.provider == u.provider && r.isVerified == u.isVerified && r.createdAt == u.createdAt
  {
    UserResponse(u.id, u.email, u.fullName, u.jobTitle, u.company, u.provider, u.isVerified, u.createdAt)
  }

  /** The profile view does not depend on the password hash, the provider's account id or the fields `User` lacks. */
  lemma ToResponseHidesSecrets(u: User, hash: string, providerId: string, first: string, last: string, picture: string)
    ensures ToResponse(u.(passwordHash := hash, providerId := providerId, firstName := first,
                          lastName := last, profilePicture := picture)) == ToResponse(u)
  {
  }
}
