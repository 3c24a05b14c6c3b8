/**
 * The profile endpoints of the signed-in user: every lookup failure of
 * `GetProfile` reads as 404; `UpdateProfile` insists on a full name before
 * the service is called.
 */
module UserHandler {
  import opened Wrappers
  import opened Uuids
  import opened Store
  import opened Errors
  import opened Http
  import opened UserModel
  import Repo = UserRepository
  import Svc = UserService

  type Table = Repo.Table

  /** `GetProfile`: 200 with the safe view of the caller's live record; any failure, a storage error included, gives 404. */
  function GetProfile(t: Table, owner: Uuid, faults: set<Call>): (r: Reply<UserResponse>)
    requires Repo.Valid(t)
    ensures r.status == OK || r.status == NotFound
    ensures r.status == OK <==> FindByID !in faults && owner in t && Repo.Live(t[owner])
    ensures r.status == OK ==> r.body == Some(ToResponse(t[owner]))
    ensures r.status == NotFound ==> r.body.None?
  {
    match Svc.GetProfile(t, owner, faults)
    case Err(_) => Fail(NotFound)
    case Ok(profile) => Send(OK, profile)
  }

  /** The checks `UpdateProfile` makes before calling the service: a parsed body with a full name. */
  predicate UpdateAdmitted(body: Option<Svc.UpdateProfileInput>) {
    body.Some? && body.value.fullName != ""
  }

  /**
   * `UpdateProfile`: 400 for a request that fails the checks, 500 for any
   * service error. Because the full name is never empty here, a successful
   * update always replaces it with the one sent.
   */
  function UpdateProfile(t: Table, owner: Uuid, body: Option<Svc.UpdateProfileInput>, now: Time, faults: set<Call>): (r: Exchange<Table, UserResponse>)
    requires Repo.Valid(t)
    ensures Repo.Valid(r.state)
    ensures r.reply.status in {OK, BadRequest, InternalServerError}
    ensures r.reply.status != OK ==> r.state == t && r.reply.body.None?
    ensures r.reply.status == BadRequest <==> !UpdateAdmitted(body)
    ensures UpdateAdmitted(body) && Svc.Find(t, owner, faults).Err? ==> r.reply.status == InternalServerError
    ensures r.reply.status == OK <==> UpdateAdmitted(body) && Svc.Find(t, owner, faults).Ok? && Update !in faults
    ensures r.reply.status == OK ==>
      && owner in t && Repo.Live(t[owner]) && owner in r.state
      && r.state == t[owner := Svc.MergeProfile(t[owner], body.value).(updatedAt := now)]
      && r.state[owner].fullName == body.value.fullName
      && r.reply.body.Some? && r.reply.body.value.fullName == body.value.fullName
  {
    if !UpdateAdmitted(body) then Exchange(t, Fail(BadRequest))
    else
      var o := Svc.UpdateProfile(t, owner, body.value, now, faults);
      match o.result
      case Err(_) => Exchange(t, Fail(InternalServerError))
      case Ok(profile) => Exchange(o.state, Send(OK, profile))
  }
}
