/**
 * internal/repository/api_key_repository.go over the abstract store. Every
 * query's filter is its SQL predicate plus GORM's implicit `deleted_at IS NULL`.
 */
module ApiKeyRepository {
  import opened Wrappers
  import opened Uuids
  import opened Store
  import opened Errors
  import opened ApiKeyModel

  type Table = map<Uuid, ApiKey>

  /** Each row is stored under its primary key; `api_keys` has no other unique index. */
  predicate Valid(t: Table) {
    forall id :: id in t ==> t[id].id == id
  }

  predicate Live(k: ApiKey) {
    !k.deleted
  }

  /** The row `Create` stores: `BeforeCreate`'s identifier, the column default for `environment`, and both timestamps set to now. */
  function Inserted(k: ApiKey, drawn: Uuid, now: Time): (s: ApiKey)
    requires IsVersion4(drawn)
    ensures s.id != Nil && (k.id != Nil ==> s.id == k.id)
    ensures k.environment == "" ==> s.environment == "sandbox"
    ensures k.environment != "" ==> s.environment == k.environment
    ensures s.createdAt == now && s.updatedAt == now
    ensures s.(id := k.id, environment := k.environment, createdAt := k.createdAt, updatedAt := k.updatedAt) == k
  {
    var b := ApiKeyModel.BeforeCreate(k, drawn);
    b.(environment := if k.environment == "" then "sandbox" else k.environment, createdAt := now, updatedAt := now)
  }

  /** `Create`: fails on a taken primary key; otherwise exactly the new row is added. */
  function Create(t: Table, k: ApiKey, drawn: Uuid, now: Time): (r: Result<Table, Error>)
    requires Valid(t) && IsVersion4(drawn)
    ensures r.Err? <==> Inserted(k, drawn, now).id in t
    ensures r.Err? ==> r.error == DbFailure
    ensures r.Ok? ==> var s := Inserted(k, drawn, now);
      && r.value.Keys == t.Keys + {s.id} && r.value[s.id] == s
      && (forall id :: id in t ==> r.value[id] == t[id])
      && Valid(r.value)
  {
    var s := Inserted(k, drawn, now);
    if s.id in t then Err(DbFailure) else Ok(t[s.id := s])
  }

  /** `FindByID`: the live row with that key, whoever owns it and whether or not it is active. */
  function FindByID(t: Table, id: Uuid): (r: Option<ApiKey>)
    requires Valid(t)
    ensures r.Some? <==> id in t && Live(t[id])
    ensures r.Some? ==> r.value == t[id]
  {
    First(t, (k: ApiKey) => k.id == id && Live(k))
  }

  /** `FindByUserID`: every live, active key of the owner exactly once, newest first. */
  method FindByUserID(t: Table, owner: Uuid) returns (rows: seq<ApiKey>)
    requires Valid(t)
    ensures forall i :: 0 <= i < |rows| ==> rows[i] in t.Values && Live(rows[i]) && rows[i].userId == owner && rows[i].isActive
    ensures forall id :: id in t && Live(t[id]) && t[id].userId == owner && t[id].isActive ==> t[id] in rows
    ensures forall i, j :: 0 <= i < j < |rows| ==> rows[i].id != rows[j].id
    ensures |rows| == CountByUserID(t, owner)
    ensures forall i, j :: 0 <= i < j < |rows| ==> rows[i].createdAt >= rows[j].createdAt
  {
    var p := (k: ApiKey) => k.userId == owner && k.isActive && Live(k);
    var ids;
    ids, rows := NewestFirst(t, p, (k: ApiKey) => k.createdAt);
    assert Matching(t, p) == ActiveOf(t, owner);
    assert forall i :: 0 <= i < |rows| ==> rows[i].id == ids[i];
    forall id | id in t && p(t[id])
      ensures t[id] in rows
    {
      var i :| 0 <= i < |ids| && ids[i] == id;
      assert rows[i] == t[id];
    }
  }

  /**
   * `FindByKeyHash`: a live, active key with exactly that hash; several may
   * share a hash, and then the one with the smallest key is returned.
   */
  function FindByKeyHash(t: Table, keyHash: string): (r: Option<ApiKey>)
    ensures r.None? <==> forall id :: id in t ==> !(Live(t[id]) && t[id].isActive && t[id].keyHash == keyHash)
    ensures r.Some? ==> r.value in t.Values && Live(r.value) && r.value.isActive && r.value.keyHash == keyHash
  {
    First(t, (k: ApiKey) => k.keyHash == keyHash && k.isActive && Live(k))
  }

  /** `Update` (GORM `Save`): the whole record is written under its key with `updated_at` set to now. */
  function Save(t: Table, k: ApiKey, now: Time): (r: Table)
    requires Valid(t)
    ensures r.Keys == t.Keys + {k.id} && r[k.id] == k.(updatedAt := now) && Valid(r)
    ensures forall id :: id in t && id != k.id ==> r[id] == t[id]
  {
    t[k.id := k.(updatedAt := now)]
  }

  /** `Revoke`: only `is_active` (and `updated_at`) of the owner's live row change; another owner's row is untouched. */
  function Revoke(t: Table, id: Uuid, owner: Uuid, now: Time): (r: Table)
    requires Valid(t)
    ensures r.Keys == t.Keys && Valid(r)
    ensures forall x :: x in t && x != id ==> r[x] == t[x]
    ensures id in t && Live(t[id]) && t[id].userId == owner ==> r[id] == t[id].(isActive := false, updatedAt := now)
    ensures id in t && !(Live(t[id]) && t[id].userId == owner) ==> r[id] == t[id]
  {
    UpdateWhere(t, (k: ApiKey) => k.id == id && k.userId == owner && Live(k),
      (k: ApiKey) => k.(isActive := false, updatedAt := now))
  }

  /** Keys of the owner's live, active API keys: what the quota counts. */
  function ActiveOf(t: Table, owner: Uuid): set<Uuid> {
    set id | id in t && Live(t[id]) && t[id].userId == owner && t[id].isActive
  }

  /** `CountByUserID`: the number of the owner's live keys with `is_active` true. */
  function CountByUserID(t: Table, owner: Uuid): (n: nat)
    ensures n == |ActiveOf(t, owner)|
  {
    var m := Matching(t, (k: ApiKey) => k.userId == owner && k.isActive && Live(k));
    assert m == ActiveOf(t, owner);
    |m|
  }

  /** Creating an active key for an owner raises that owner's count by one. */
  lemma CreateCounts(t: Table, k: ApiKey, drawn: Uuid, now: Time)
    requires Valid(t) && IsVersion4(drawn) && k.isActive && !k.deleted
    requires Create(t, k, drawn, now).Ok?
    ensures CountByUserID(Create(t, k, drawn, now).value, k.userId) == CountByUserID(t, k.userId) + 1
  {
    var t' := Create(t, k, drawn, now).value;
    var s := Inserted(k, drawn, now);
    assert t' == t[s.id := s];
    ActiveOfInsert(t, s);
  }

  /** Adding a new live, active key adds it to its owner's active set. */
  lemma ActiveOfInsert(t: Table, s: ApiKey)
    requires s.id !in t && Live(s) && s.isActive
    ensures ActiveOf(t[s.id := s], s.userId) == ActiveOf(t, s.userId) + {s.id}
    ensures s.id !in ActiveOf(t, s.userId)
  {
  }

  /** Revoking one of the owner's active keys lowers the count by one; revoking anything else leaves it alone. */
  lemma RevokeCounts(t: Table, id: Uuid, owner: Uuid, now: Time)
    requires Valid(t)
    ensures id in ActiveOf(t, owner) ==> CountByUserID(Revoke(t, id, owner, now), owner) == CountByUserID(t, owner) - 1
    ensures id !in ActiveOf(t, owner) ==> CountByUserID(Revoke(t, id, owner, now), owner) == CountByUserID(t, owner)
  {
    if id in ActiveOf(t, owner) {
      assert ActiveOf(Revoke(t, id, owner, now), owner) == ActiveOf(t, owner) - {id};
    } else {
      assert ActiveOf(Revoke(t, id, owner, now), owner) == ActiveOf(t, owner);
    }
  }
}
