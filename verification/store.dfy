/**
 * The abstract record store behind the GORM repositories. A table is a map
 * from primary key to row; soft-deleted rows stay in the map with their
 * `deleted` flag set, and every query the repositories make excludes them
 * (GORM adds `deleted_at IS NULL` to every query on a model with a
 * `gorm.DeletedAt` field). Queries are given as predicates over one row.
 */
module Store {
  import opened Wrappers
  import opened Uuids

  /** An instant, in Unix seconds. */
  type Time = int

  /** Primary keys of the rows a query predicate selects. */
  function Matching<R>(rows: map<Uuid, R>, p: R -> bool): set<Uuid> {
    set id | id in rows && p(rows[id])
  }

  /**
   * `First(&row)`: the selected row with the smallest primary key, or
   * `gorm.ErrRecordNotFound` (here `None`) when nothing is selected.
   */
  function First<R>(rows: map<Uuid, R>, p: R -> bool): (r: Option<R>)
    ensures r.None? <==> forall id :: id in rows ==> !p(rows[id])
    ensures r.Some? ==> exists id :: id in rows && rows[id] == r.value && p(rows[id])
                                     && forall other :: other in rows && p(rows[other]) ==> Below(id, other)
  {
    var ids := Matching(rows, p);
    assert forall id :: id in rows && p(rows[id]) ==> id in ids;
    if ids == {} then None
    else
      var id := Least(ids);
      assert id in rows && p(rows[id]);
      Some(rows[id])
  }

  /**
   * `Model(..).Where(p).Update(s)`: every selected row is rewritten by `f`;
   * every other row, selected or not, keeps its value, and no key is added or removed.
   */
  function UpdateWhere<R>(rows: map<Uuid, R>, p: R -> bool, f: R -> R): (r: map<Uuid, R>)
    ensures r.Keys == rows.Keys
    ensures forall id :: id in rows && p(rows[id]) ==> r[id] == f(rows[id])
    ensures forall id :: id in rows && !p(rows[id]) ==> r[id] == rows[id]
  {
    map id | id in rows :: if p(rows[id]) then f(rows[id]) else rows[id]
  }

  /** `BeforeCreate`: a nil identifier is replaced by a freshly drawn one; any other is kept. */
  function AssignId(current: Uuid, drawn: Uuid): (id: Uuid)
    requires IsVersion4(drawn)
    ensures id != Nil
    ensures current != Nil ==> id == current
  {
    if current == Nil then drawn else current
  }

  /** Rows listed by `created_at DESC`. */
  predicate NewestFirstOrder<R>(out: seq<R>, created: R -> Time) {
    forall i, j :: 0 <= i < j < |out| ==> created(out[i]) >= created(out[j])
  }

  /** The first position at which a row created at `c` keeps the list newest first. */
  function InsertPos<R>(s: seq<R>, created: R -> Time, c: Time): (k: nat)
    requires NewestFirstOrder(s, created)
    ensures k <= |s|
    ensures forall i :: 0 <= i < k ==> created(s[i]) >= c
    ensures forall i :: k <= i < |s| ==> created(s[i]) < c
    decreases |s|
  {
    if |s| == 0 || created(s[0]) < c then 0
    else
      var k := InsertPos(s[1..], created, c);
      assert forall i :: 1 <= i < |s| ==> s[1..][i - 1] == s[i];
      1 + k
  }

  predicate Distinct(ids: seq<Uuid>) {
    forall i, j :: 0 <= i < j < |ids| ==> ids[i] != ids[j]
  }

  /** Inserting a row at its `InsertPos` keeps the list newest first. */
  lemma InsertKeepsOrder<R>(out: seq<R>, created: R -> Time, r: R)
    requires NewestFirstOrder(out, created)
    ensures NewestFirstOrder(Insert(out, InsertPos(out, created, created(r)), r), created)
  {
    var k := InsertPos(out, created, created(r));
    var out' := Insert(out, k, r);
    forall i, j | 0 <= i < j < |out'|
      ensures created(out'[i]) >= created(out'[j])
    {
      if j < k {
        assert out'[i] == out[i] && out'[j] == out[j];
      } else if j == k {
        assert out'[i] == out[i];
      } else if i == k {
        assert out'[j] == out[j - 1];
      } else if i < k {
        assert out'[i] == out[i] && out'[j] == out[j - 1];
      } else {
        assert out'[i] == out[i - 1] && out'[j] == out[j - 1];
      }
    }
  }

  /** Inserting a new key keeps the keys distinct and adds exactly that key. */
  lemma InsertKeepsDistinct(ids: seq<Uuid>, k: nat, id: Uuid)
    requires Distinct(ids) && id !in ids && k <= |ids|
    ensures Distinct(Insert(ids, k, id))
    ensures forall x :: x in Insert(ids, k, id) <==> x in ids || x == id
  {
    var ids' := Insert(ids, k, id);
    assert forall i :: 0 <= i < k ==> ids'[i] == ids[i];
    assert forall i :: k < i < |ids'| ==> ids'[i] == ids[i - 1];
    forall x | x in ids
      ensures x in ids'
    {
      var i :| 0 <= i < |ids| && ids[i] == x;
      if i < k {
        assert ids'[i] == x;
      } else {
        assert ids'[i + 1] == x;
      }
    }
  }

  function Insert<T>(s: seq<T>, k: nat, x: T): (r: seq<T>)
    requires k <= |s|
    ensures |r| == |s| + 1
  {
    s[..k] + [x] + s[k..]
  }

  /**
   * `Where(p).Order("created_at DESC").Find(&rows)`: every selected row
   * exactly once, newest first. Rows created at the same instant come back
   * in no promised order, as in SQL.
   */
  method NewestFirst<R>(rows: map<Uuid, R>, p: R -> bool, created: R -> Time) returns (ids: seq<Uuid>, out: seq<R>)
    ensures |ids| == |out|
    ensures forall i :: 0 <= i < |ids| ==> ids[i] in rows && out[i] == rows[ids[i]]
    ensures Distinct(ids)
    ensures forall id :: id in ids <==> id in rows && p(rows[id])
    ensures |ids| == |Matching(rows, p)|
    ensures NewestFirstOrder(out, created)
  {
    ids, out := [], [];
    var todo := Matching(rows, p);
    while todo != {}
      invariant todo <= Matching(rows, p)
      invariant forall id :: id in ids <==> id in Matching(rows, p) && id !in todo
      invariant |ids| + |todo| == |Matching(rows, p)|
      invariant |ids| == |out|
      invariant forall i :: 0 <= i < |ids| ==> ids[i] in rows && out[i] == rows[ids[i]]
      invariant Distinct(ids)
      invariant NewestFirstOrder(out, created)
      decreases |todo|
    {
      var id :| id in todo;
      var k := InsertPos(out, created, created(rows[id]));
      InsertKeepsOrder(out, created, rows[id]);
      InsertKeepsDistinct(ids, k, id);
      var ids' := Insert(ids, k, id);
      var out' := Insert(out, k, rows[id]);
      assert forall i :: 0 <= i < |ids'| ==> ids'[i] in rows && out'[i] == rows[ids'[i]] by {
        forall i | 0 <= i < |ids'|
          ensures ids'[i] in rows && out'[i] == rows[ids'[i]]
        {
          if i < k {
            assert ids'[i] == ids[i] && out'[i] == out[i];
          } else if i > k {
            assert ids'[i] == ids[i - 1] && out'[i] == out[i - 1];
          }
        }
      }
      ids, out := ids', out';
      todo := todo - {id};
    }
  }
}
