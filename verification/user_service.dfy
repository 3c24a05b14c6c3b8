/**
 * internal/services/user_service.go: reading and updating the caller's
 * profile. `UpdateProfile` writes `FirstName`, `LastName` and
 * `ProfilePicture`, which `models.User` does not declare; the model's `User`
 * carries them so that the merge rule can be stated in full.
 */
module UserService {
  import opened Wrappers
  import opened Uuids
  import opened Store
  import opened Errors
  import opened UserModel
  import Repo = UserRepository

  type Table = Repo.Table

  datatype UpdateProfileInput = UpdateProfileInput(
    fullName: string, firstName: string, lastName: string, jobTitle: string, company: string, profilePicture: string)

  /** `FindByID`, or `RecordNotFound` / the storage error. */
  function Find(t: Table, id: Uuid, faults: set<Call>): (r: Result<User, Error>)
    requires Repo.Valid(t)
    ensures r.Ok? <==> FindByID !in faults && id in t && Repo.Live(t[id])
    ensures r.Ok? ==> r.value == t[id]
    ensures r.Err? ==> r.error == (if FindByID in faults then DbFailure else RecordNotFound)
  {
    if FindByID in faults then Err(DbFailure)
    else
      match Repo.FindByID(t, id)
      case None => Err(RecordNotFound)
      case Some(u) => Ok(u)
  }

  /** `GetProfile`: the safe view of the live user with that key. */
  function GetProfile(t: Table, id: Uuid, faults: set<Call>): (r: Result<UserResponse, Error>)
    requires Repo.Valid(t)
    ensures r.Ok? <==> Find(t, id, faults).Ok?
    ensures r.Ok? ==> r.value == ToResponse(t[id])
    ensures r.Err? ==> r.error == Find(t, id, faults).error
  {
    match Find(t, id, faults)
    case Err(e) => Err(e)
    case Ok(u) => Ok(ToResponse(u))
  }

  /** The field rule of `UpdateProfile`: a field is overwritten exactly when its input is non-empty. */
  function Overwrite(current: string, input: string): (s: string)
    ensures input != "" ==> s == input
    ensures input == "" ==> s == current
  {
    if input != "" then input else current
  }

  /** The merge of `UpdateProfile`: six profile fields by `Overwrite`, every other field kept. */
  function MergeProfile(u: User, input: UpdateProfileInput): (m: User)
    ensures m.fullName == Overwrite(u.fullName, input.fullName) && m.firstName == Overwrite(u.firstName, input.firstName)
    ensures m.lastName == Overwrite(u.lastName, input.lastName) && m.jobTitle == Overwrite(u.jobTitle, input.jobTitle)
    ensures m.company == Overwrite(u.company, input.company) && m.profilePicture == Overwrite(u.profilePicture, input.profilePicture)
    ensures m.(fullName := u.fullName, firstName := u.firstName, lastName := u.lastName, jobTitle := u.jobTitle,
               company := u.company, profilePicture := u.profilePicture) == u
  {
    u.(fullName := Overwrite(u.fullName, input.fullName),
       firstName := Overwrite(u.firstName, input.firstName),
       lastName := Overwrite(u.lastName, input.lastName),
       jobTitle := Overwrite(u.jobTitle, input.jobTitle),
       company := Overwrite(u.company, input.company),
       profilePicture := Overwrite(u.profilePicture, input.profilePicture))
  }

  /** An input with every field empty leaves the user unchanged. */
  lemma MergeEmptyIdentity(u: User)
    ensures MergeProfile(u, UpdateProfileInput("", "", "", "", "", "")) == u
  {
  }

  /** Applying the same input twice gives what applying it once gives. */
  lemma MergeIdempotent(u: User, input: UpdateProfileInput)
    ensures MergeProfile(MergeProfile(u, input), input) == MergeProfile(u, input)
  {
  }

  /** Two updates in a row act as one update whose fields take the later non-empty value. */
  lemma MergeCompose(u: User, a: UpdateProfileInput, b: UpdateProfileInput)
    ensures MergeProfile(MergeProfile(u, a), b) == MergeProfile(u, UpdateProfileInput(
      Overwrite(a.fullName, b.fullName), Overwrite(a.firstName, b.firstName), Overwrite(a.lastName, b.lastName),
      Overwrite(a.jobTitle, b.jobTitle), Overwrite(a.company, b.company), Overwrite(a.profilePicture, b.profilePicture)))
  {
  }

  /**
   * `UpdateProfile`: a failed lookup returns its error and writes nothing;
   * otherwise the merged user is saved and its safe view returned.
   */
  function UpdateProfile(t: Table, id: Uuid, input: UpdateProfileInput, now: Time, faults: set<Call>): (r: Outcome<Table, UserResponse>)
    requires Repo.Valid(t)
    ensures Repo.Valid(r.state)
    ensures r.result.Err? ==> r.state == t
    ensures Find(t, id, faults).Err? ==> r.result == Err(Find(t, id, faults).error)
    ensures Find(t, id, faults).Ok? ==> (r.result.Ok? <==> Update !in faults)
    ensures Find(t, id, faults).Ok? && Update in faults ==> r.result == Err(DbFailure)
    ensures r.result.Ok? ==>
      && id in t && r.state == t[id := MergeProfile(t[id], input).(updatedAt := now)]
      && r.result.value == ToResponse(MergeProfile(t[id], input))
  {
    match Find(t, id, faults)
    case Err(e) => Outcome(t, Err(e))
    case Ok(u) =>
      var m := MergeProfile(u, input);
      if Update in faults then Outcome(t, Err(DbFailure))
      else
        match Repo.Save(t, m, now)
        case Err(e) => Outcome(t, Err(e))
        case Ok(t') => Outcome(t', Ok(ToResponse(m.(updatedAt := now))))
  }
}
