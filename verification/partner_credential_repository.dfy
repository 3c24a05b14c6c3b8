/**
 * internal/repository/partner_credential_repository.go over the abstract
 * store. Every query's filter is its SQL predicate plus GORM's implicit
 * `deleted_at IS NULL`.
 */
module PartnerCredentialRepository {
  import opened Wrappers
  import opened Uuids
  import opened Store
  import opened Errors
  import opened PartnerCredentialModel

  type Table = map<Uuid, PartnerCredential>

  /**
   * What the database guarantees of the table: each row is stored under its
   * primary key, and the `uniqueIndex` on `client_id` (which also covers
   * soft-deleted rows) keeps client IDs distinct.
   */
  predicate Valid(t: Table) {
    && (forall id :: id in t ==> t[id].id == id)
    && (forall a, b :: a in t && b in t && a != b ==> t[a].clientId != t[b].clientId)
  }

  /** A row that GORM's soft delete has not hidden. */
  predicate Live(c: PartnerCredential) {
    !c.deleted
  }

  /** The row `Create` stores: `BeforeCreate`'s identifier, the column default for `environment`, and both timestamps set to now. */
  function Inserted(c: PartnerCredential, drawn: Uuid, now: Time): (s: PartnerCredential)
    requires IsVersion4(drawn)
    ensures s.id != Nil && (c.id != Nil ==> s.id == c.id)
    ensures c.environment == "" ==> s.environment == "sandbox"
    ensures c.environment != "" ==> s.environment == c.environment
    ensures s.createdAt == now && s.updatedAt == now
    ensures s.(id := c.id, environment := c.environment, createdAt := c.createdAt, updatedAt := c.updatedAt) == c
  {
    var b := PartnerCredentialModel.BeforeCreate(c, drawn);
    b.(environment := if c.environment == "" then "sandbox" else c.environment, createdAt := now, updatedAt := now)
  }

  /** `Create`: the insert fails on a taken primary key or a taken client ID; otherwise exactly the new row is added. */
  function Create(t: Table, c: PartnerCredential, drawn: Uuid, now: Time): (r: Result<Table, Error>)
    requires Valid(t) && IsVersion4(drawn)
    ensures var s := Inserted(c, drawn, now);
      r.Err? <==> s.id in t || exists id :: id in t && t[id].clientId == c.clientId
    ensures r.Err? ==> r.error == DbFailure
    ensures r.Ok? ==> var s := Inserted(c, drawn, now);
      && s.id !in t && r.value.Keys == t.Keys + {s.id} && r.value[s.id] == s
      && (forall id :: id in t ==> r.value[id] == t[id])
      && Valid(r.value)
  {
    var s := Inserted(c, drawn, now);
    if s.id in t || exists id :: id in t && t[id].clientId == c.clientId then Err(DbFailure)
    else Ok(t[s.id := s])
  }

  /** `FindByID`: the live, active row with that key. */
  function FindByID(t: Table, id: Uuid): (r: Option<PartnerCredential>)
    requires Valid(t)
    ensures r.Some? <==> id in t && Live(t[id]) && t[id].isActive
    ensures r.Some? ==> r.value == t[id]
  {
    First(t, (c: PartnerCredential) => c.id == id && c.isActive && Live(c))
  }

  /** `FindByIDAndUserID`: the live row with that key and owner, active or not. */
  function FindByIDAndUserID(t: Table, id: Uuid, owner: Uuid): (r: Option<PartnerCredential>)
    requires Valid(t)
    ensures r.Some? <==> id in t && Live(t[id]) && t[id].userId == owner
    ensures r.Some? ==> r.value == t[id]
  {
    First(t, (c: PartnerCredential) => c.id == id && c.userId == owner && Live(c))
  }

  /** `FindByUserID`: every live, active row of the owner exactly once, newest first. */
  method FindByUserID(t: Table, owner: Uuid) returns (rows: seq<PartnerCredential>)
    requires Valid(t)
    ensures forall i :: 0 <= i < |rows| ==> rows[i] in t.Values && Live(rows[i]) && rows[i].userId == owner && rows[i].isActive
    ensures forall id :: id in t && Live(t[id]) && t[id].userId == owner && t[id].isActive ==> t[id] in rows
    ensures forall i, j :: 0 <= i < j < |rows| ==> rows[i].id != rows[j].id
    ensures |rows| == CountByUserID(t, owner)
    ensures forall i, j :: 0 <= i < j < |rows| ==> rows[i].createdAt >= rows[j].createdAt
  {
    var p := (c: PartnerCredential) => c.userId == owner && c.isActive && Live(c);
    var ids;
    ids, rows := NewestFirst(t, p, (c: PartnerCredential) => c.createdAt);
    assert Matching(t, p) == ActiveOf(t, owner);
    assert forall i :: 0 <= i < |rows| ==> rows[i].id == ids[i];
    forall id | id in t && p(t[id])
      ensures t[id] in rows
    {
      var i :| 0 <= i < |ids| && ids[i] == id;
      assert rows[i] == t[id];
    }
  }

  /** `FindByClientID`: the live, active row holding that client ID; client IDs are unique, so there is at most one. */
  function FindByClientID(t: Table, clientId: string): (r: Option<PartnerCredential>)
    requires Valid(t)
    ensures r.Some? <==> exists id :: id in t && Live(t[id]) && t[id].isActive && t[id].clientId == clientId
    ensures forall id :: id in t && Live(t[id]) && t[id].isActive && t[id].clientId == clientId ==> r == Some(t[id])
  {
    First(t, (c: PartnerCredential) => c.clientId == clientId && c.isActive && Live(c))
  }

  /**
   * `Update` (GORM `Save`): the whole record is written under its key, with
   * `updated_at` set to now. Writing a client ID another row holds violates
   * the unique index.
   */
  function Save(t: Table, c: PartnerCredential, now: Time): (r: Result<Table, Error>)
    requires Valid(t)
    ensures r.Err? <==> exists id :: id in t && id != c.id && t[id].clientId == c.clientId
    ensures r.Err? ==> r.error == DbFailure
    ensures r.Ok? ==>
      && r.value.Keys == t.Keys + {c.id} && r.value[c.id] == c.(updatedAt := now)
      && (forall id :: id in t && id != c.id ==> r.value[id] == t[id])
      && Valid(r.value)
  {
    if exists id :: id in t && id != c.id && t[id].clientId == c.clientId then Err(DbFailure)
    else Ok(t[c.id := c.(updatedAt := now)])
  }

  /** `UpdatePublicKey`: only the key, its fingerprint and the time it was added (and `updated_at`) change, on the owner's live row. */
  function UpdatePublicKey(t: Table, id: Uuid, owner: Uuid, publicKey: string, fingerprint: string, now: Time): (r: Table)
    requires Valid(t)
    ensures r.Keys == t.Keys && Valid(r)
    ensures forall x :: x in t && x != id ==> r[x] == t[x]
    ensures id in t && Live(t[id]) && t[id].userId == owner ==>
      r[id] == t[id].(publicKey := publicKey, publicKeyFingerprint := fingerprint, publicKeyAddedAt := Some(now), updatedAt := now)
    ensures id in t && !(Live(t[id]) && t[id].userId == owner) ==> r[id] == t[id]
  {
    UpdateWhere(t, (c: PartnerCredential) => c.id == id && c.userId == owner && Live(c),
      (c: PartnerCredential) => c.(publicKey := publicKey, publicKeyFingerprint := fingerprint, publicKeyAddedAt := Some(now), updatedAt := now))
  }

  /** `Delete`: a soft delete of the owner's live row; the row stays in the table, hidden from every query. */
  function Delete(t: Table, id: Uuid, owner: Uuid): (r: Table)
    requires Valid(t)
    ensures r.Keys == t.Keys && Valid(r)
    ensures forall x :: x in t && x != id ==> r[x] == t[x]
    ensures id in t ==> r[id] == if Live(t[id]) && t[id].userId == owner then t[id].(deleted := true) else t[id]
  {
    UpdateWhere(t, (c: PartnerCredential) => c.id == id && c.userId == owner && Live(c),
      (c: PartnerCredential) => c.(deleted := true))
  }

  /** `Deactivate`: only `is_active` (and `updated_at`) of the owner's live row change. */
  function Deactivate(t: Table, id: Uuid, owner: Uuid, now: Time): (r: Table)
    requires Valid(t)
    ensures r.Keys == t.Keys && Valid(r)
    ensures forall x :: x in t && x != id ==> r[x] == t[x]
    ensures id in t ==> r[id] == if Live(t[id]) && t[id].userId == owner then t[id].(isActive := false, updatedAt := now) else t[id]
  {
    UpdateWhere(t, (c: PartnerCredential) => c.id == id && c.userId == owner && Live(c),
      (c: PartnerCredential) => c.(isActive := false, updatedAt := now))
  }

  /** `UpdateLastUsed`: only `last_used_at` (and `updated_at`) of the live row with that key change, whoever owns it. */
  function UpdateLastUsed(t: Table, id: Uuid, now: Time): (r: Table)
    requires Valid(t)
    ensures r.Keys == t.Keys && Valid(r)
    ensures forall x :: x in t && x != id ==> r[x] == t[x]
    ensures id in t ==> r[id] == if Live(t[id]) then t[id].(lastUsedAt := Some(now), updatedAt := now) else t[id]
  {
    UpdateWhere(t, (c: PartnerCredential) => c.id == id && Live(c),
      (c: PartnerCredential) => c.(lastUsedAt := Some(now), updatedAt := now))
  }

  /** Keys of the owner's live, active rows: what the quota counts. */
  function ActiveOf(t: Table, owner: Uuid): set<Uuid> {
    set id | id in t && Live(t[id]) && t[id].userId == owner && t[id].isActive
  }

  /** `CountByUserID`: the number of the owner's live rows with `is_active` true. */
  function CountByUserID(t: Table, owner: Uuid): (n: nat)
    ensures n == |ActiveOf(t, owner)|
  {
    var m := Matching(t, (c: PartnerCredential) => c.userId == owner && c.isActive && Live(c));
    assert m == ActiveOf(t, owner);
    |m|
  }

  /** `ExistsByClientID`: some live row holds the client ID, active or not. */
  function ExistsByClientID(t: Table, clientId: string): (b: bool)
    ensures b <==> exists id :: id in t && Live(t[id]) && t[id].clientId == clientId
  {
    var m := Matching(t, (c: PartnerCredential) => c.clientId == clientId && Live(c));
    assert forall id :: id in t && Live(t[id]) && t[id].clientId == clientId ==> id in m;
    |m| > 0
  }

  /** Creating an active record for an owner raises that owner's count by one and leaves every other owner's count alone. */
  lemma CreateCounts(t: Table, c: PartnerCredential, drawn: Uuid, now: Time, other: Uuid)
    requires Valid(t) && IsVersion4(drawn) && c.isActive && !c.deleted
    requires Create(t, c, drawn, now).Ok?
    ensures CountByUserID(Create(t, c, drawn, now).value, c.userId) == CountByUserID(t, c.userId) + 1
    ensures other != c.userId ==> CountByUserID(Create(t, c, drawn, now).value, other) == CountByUserID(t, other)
  {
    var t' := Create(t, c, drawn, now).value;
    var s := Inserted(c, drawn, now);
    assert t' == t[s.id := s];
    ActiveOfInsert(t, s, c.userId);
    ActiveOfInsert(t, s, other);
  }

  /** Adding a new row adds it to exactly its owner's active set when it is live and active. */
  lemma ActiveOfInsert(t: Table, s: PartnerCredential, owner: Uuid)
    requires s.id !in t
    ensures s.userId == owner && Live(s) && s.isActive ==> ActiveOf(t[s.id := s], owner) == ActiveOf(t, owner) + {s.id}
    ensures !(s.userId == owner && Live(s) && s.isActive) ==> ActiveOf(t[s.id := s], owner) == ActiveOf(t, owner)
    ensures s.id !in ActiveOf(t, owner)
  {
  }

  /** Soft-deleting one of the owner's active credentials lowers the owner's count by one. */
  lemma DeleteCounts(t: Table, id: Uuid, owner: Uuid)
    requires Valid(t) && id in ActiveOf(t, owner)
    ensures CountByUserID(Delete(t, id, owner), owner) == CountByUserID(t, owner) - 1
  {
    assert ActiveOf(Delete(t, id, owner), owner) == ActiveOf(t, owner) - {id};
  }

  lemma DeactivateCounts(t: Table, id: Uuid, owner: Uuid, now: Time)
    requires Valid(t) && id in ActiveOf(t, owner)
    ensures CountByUserID(Deactivate(t, id, owner, now), owner) == CountByUserID(t, owner) - 1
  {
    assert ActiveOf(Deactivate(t, id, owner, now), owner) == ActiveOf(t, owner) - {id};
  }
}
