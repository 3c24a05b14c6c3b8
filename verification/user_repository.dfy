/**
 * internal/repository/user_repository.go over the abstract store. Every
 * query's filter is its SQL predicate plus GORM's implicit `deleted_at IS NULL`.
 */
module UserRepository {
  import opened Wrappers
  import opened Uuids
  import opened Store
  import opened Errors
  import opened UserModel

  type Table = map<Uuid, User>

  /**
   * Each row is stored under its primary key, and the `uniqueIndex` on
   * `email` (which also covers soft-deleted rows) keeps emails distinct.
   */
  predicate Valid(t: Table) {
    && (forall id :: id in t ==> t[id].id == id)
    && (forall a, b :: a in t && b in t && a != b ==> t[a].email != t[b].email)
  }

  predicate Live(u: User) {
    !u.deleted
  }

  /** The row `Create` stores: `BeforeCreate`'s identifier, the column default for `provider`, and both timestamps set to now. */
  function Inserted(u: User, drawn: Uuid, now: Time): (s: User)
    requires IsVersion4(drawn)
    ensures s.id != Nil && (u.id != Nil ==> s.id == u.id)
    ensures u.provider == "" ==> s.provider == LocalProvider
    ensures u.provider != "" ==> s.provider == u.provider
    ensures s.createdAt == now && s.updatedAt == now
    ensures s.(id := u.id, provider := u.provider, createdAt := u.createdAt, updatedAt := u.updatedAt) == u
  {
    var b := UserModel.BeforeCreate(u, drawn);
    b.(provider := if u.provider == "" then LocalProvider else u.provider, createdAt := now, updatedAt := now)
  }

  /** `Create`: the insert fails on a taken primary key or a taken email; otherwise exactly the new row is added. */
  function Create(t: Table, u: User, drawn: Uuid, now: Time): (r: Result<Table, Error>)
    requires Valid(t) && IsVersion4(drawn)
    ensures var s := Inserted(u, drawn, now);
      r.Err? <==> s.id in t || exists id :: id in t && t[id].email == u.email
    ensures r.Err? ==> r.error == DbFailure
    ensures r.Ok? ==> var s := Inserted(u, drawn, now);
      && s.id !in t && r.value.Keys == t.Keys + {s.id} && r.value[s.id] == s
      && (forall id :: id in t ==> r.value[id] == t[id])
      && Valid(r.value)
  {
    var s := Inserted(u, drawn, now);
    if s.id in t || exists id :: id in t && t[id].email == u.email then Err(DbFailure)
    else Ok(t[s.id := s])
  }

  /** `FindByID`: the live user with that key. */
  function FindByID(t: Table, id: Uuid): (r: Option<User>)
    requires Valid(t)
    ensures r.Some? <==> id in t && Live(t[id])
    ensures r.Some? ==> r.value == t[id]
  {
    First(t, (u: User) => u.id == id && Live(u))
  }

  /** `FindByEmail`: the live user with exactly that email; emails are unique, so there is at most one. */
  function FindByEmail(t: Table, email: string): (r: Option<User>)
    requires Valid(t)
    ensures r.Some? <==> exists id :: id in t && Live(t[id]) && t[id].email == email
    ensures forall id :: id in t && Live(t[id]) && t[id].email == email ==> r == Some(t[id])
  {
    First(t, (u: User) => u.email == email && Live(u))
  }

  /** `FindByProvider`: a live user matching both the provider and the provider's account id; the smallest key wins a tie. */
  function FindByProvider(t: Table, provider: string, providerId: string): (r: Option<User>)
    ensures r.None? <==> forall id :: id in t ==> !(Live(t[id]) && t[id].provider == provider && t[id].providerId == providerId)
    ensures r.Some? ==> r.value in t.Values && Live(r.value) && r.value.provider == provider && r.value.providerId == providerId
  {
    First(t, (u: User) => u.provider == provider && u.providerId == providerId && Live(u))
  }

  /**
   * `Update` (GORM `Save`): the whole record is written under its key with
   * `updated_at` set to now; an email another row holds violates the unique index.
   */
  function Save(t: Table, u: User, now: Time): (r: Result<Table, Error>)
    requires Valid(t)
    ensures r.Err? <==> exists id :: id in t && id != u.id && t[id].email == u.email
    ensures r.Err? ==> r.error == DbFailure
    ensures r.Ok? ==>
      && r.value.Keys == t.Keys + {u.id} && r.value[u.id] == u.(updatedAt := now)
      && (forall id :: id in t && id != u.id ==> r.value[id] == t[id])
      && Valid(r.value)
  {
    if exists id :: id in t && id != u.id && t[id].email == u.email then Err(DbFailure)
    else Ok(t[u.id := u.(updatedAt := now)])
  }

  /** `Delete`: a soft delete of the live user with that key; the row stays, hidden from every query. */
  function Delete(t: Table, id: Uuid): (r: Table)
    requires Valid(t)
    ensures r.Keys == t.Keys && Valid(r)
    ensures forall x :: x in t && x != id ==> r[x] == t[x]
    ensures id in t ==> r[id] == t[id].(deleted := true)
    ensures FindByID(r, id).None?
  {
    UpdateWhere(t, (u: User) => u.id == id && Live(u), (u: User) => u.(deleted := true))
  }

  /**
   * `EmailExists`: a live user has exactly that email. The query's error is
   * discarded, so a failing count (`failed`) reads as "no such email".
   */
  function EmailExists(t: Table, email: string, failed: bool): (b: bool)
    ensures b <==> !failed && exists id :: id in t && Live(t[id]) && t[id].email == email
  {
    if failed then false
    else
      var m := Matching(t, (u: User) => u.email == email && Live(u));
      assert forall id :: id in t && Live(t[id]) && t[id].email == email ==> id in m;
      |m| > 0
  }

  /** A soft-deleted user is invisible to `EmailExists`, yet its email still blocks a new row. */
  lemma DeletedEmailStillTaken(t: Table, id: Uuid, u: User, drawn: Uuid, now: Time)
    requires Valid(t) && IsVersion4(drawn) && id in t && Live(t[id]) && u.email == t[id].email
    ensures !EmailExists(Delete(t, id), u.email, false)
    ensures Create(Delete(t, id), u, drawn, now).Err?
  {
    var t' := Delete(t, id);
    assert t'[id].email == u.email;
  }
}
