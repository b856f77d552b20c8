/**
 * The `entity_status` table: publication status labels with serial ids.
 * Every failure is reported as its cause wrapped with `%w`; there are no
 * sentinels in this package. Single-row reads go through a scanner that
 * fails unless the query yields exactly one row.
 */
module StatusRepo {
  import opened Wrappers
  import opened Errors
  import opened Model
  import opened Db

  /** Ids are distinct and all below the next serial value. */
  predicate Valid(db: Database)
    reads db
  {
    (forall i :: 0 <= i < |db.entityStatus| ==> db.entityStatus[i].id < db.statusSeq) &&
    (forall i, j :: 0 <= i < j < |db.entityStatus| ==> db.entityStatus[i].id != db.entityStatus[j].id)
  }

  /** `INSERT INTO entity_status (status) VALUES ($1) RETURNING id`. */
  method Create(db: Database, status: string, fault: Option<DbFailure>) returns (id: int, err: Option<Error>)
    requires Valid(db)
    modifies db`entityStatus, db`statusSeq
    ensures Valid(db)
    ensures err.None? <==> fault.None?
    ensures err.None? ==> id == old(db.statusSeq) && db.statusSeq == id + 1
    ensures err.None? ==> db.entityStatus == old(db.entityStatus) + [RepoStatus(id, status)]
    ensures err.Some? ==> id == 0 && err.value == CauseOnly(Db(fault.value))
    ensures err.Some? ==> db.entityStatus == old(db.entityStatus) && db.statusSeq == old(db.statusSeq) + SerialsDrawn(fault.value)
  {
    if fault.Some? {
      db.statusSeq := db.statusSeq + SerialsDrawn(fault.value);
      return 0, Some(CauseOnly(Db(fault.value)));
    }
    id := db.statusSeq;
    db.entityStatus := db.entityStatus + [RepoStatus(id, status)];
    db.statusSeq := id + 1;
    err := None;
  }

  /** `SELECT id, status FROM entity_status`: every row, in table order. */
  function GetAll(rows: seq<RepoStatus>, fault: Option<DbFailure>): (r: Result<seq<RepoStatus>, Error>)
    ensures r.Ok? <==> fault.None?
    ensures r.Ok? ==> |r.value| == |rows| && forall s :: s in r.value <==> s in rows
    ensures r.Err? ==> r.error == CauseOnly(Db(fault.value))
  {
    if fault.Some? then Err(CauseOnly(Db(fault.value))) else Ok(rows)
  }

  /** The rows whose status label is `wanted`. */
  function WithLabel(rows: seq<RepoStatus>, wanted: string): (m: seq<RepoStatus>)
    ensures |m| <= |rows|
    ensures forall s :: s in m <==> s in rows && s.status == wanted
  {
    if rows == [] then []
    else
      var rest := WithLabel(rows[1..], wanted);
      assert forall s :: s in rows <==> s == rows[0] || s in rows[1..];
      if rows[0].status == wanted then [rows[0]] + rest else rest
  }

  /** The rows whose id is `id`. */
  function WithId(rows: seq<RepoStatus>, id: int): (m: seq<RepoStatus>)
    ensures |m| <= |rows|
    ensures forall s :: s in m <==> s in rows && s.id == id
  {
    if rows == [] then []
    else
      var rest := WithId(rows[1..], id);
      assert forall s :: s in rows <==> s == rows[0] || s in rows[1..];
      if rows[0].id == id then [rows[0]] + rest else rest
  }

  /** The single-row scanner: the one row, or an error naming how many rows came back. */
  function ScanOne(matches: seq<RepoStatus>): (r: Result<RepoStatus, Error>)
    ensures r.Ok? <==> |matches| == 1
    ensures r.Ok? ==> r.value in matches
    ensures r.Err? ==> r.error == CauseOnly(RowCount(|matches|))
  {
    if |matches| == 1 then Ok(matches[0]) else Err(CauseOnly(RowCount(|matches|)))
  }

  /** `SELECT id, status FROM entity_status WHERE status = $1`, scanned as one row. */
  function GetByStatus(rows: seq<RepoStatus>, wanted: string, fault: Option<DbFailure>): (r: Result<RepoStatus, Error>)
    ensures r.Ok? <==> fault.None? && |WithLabel(rows, wanted)| == 1
    ensures r.Ok? ==> r.value in rows && r.value.status == wanted
    ensures r.Err? ==> r.error.wraps == {}
  {
    if fault.Some? then Err(CauseOnly(Db(fault.value))) else ScanOne(WithLabel(rows, wanted))
  }

  /** `SELECT id, status FROM entity_status WHERE id = $1`, scanned as one row. */
  function GetById(rows: seq<RepoStatus>, id: int, fault: Option<DbFailure>): (r: Result<RepoStatus, Error>)
    ensures r.Ok? <==> fault.None? && |WithId(rows, id)| == 1
    ensures r.Ok? ==> r.value in rows && r.value.id == id
    ensures r.Err? ==> r.error.wraps == {}
  {
    if fault.Some? then Err(CauseOnly(Db(fault.value))) else ScanOne(WithId(rows, id))
  }

  predicate UniqueLabels(rows: seq<RepoStatus>) {
    forall i, j :: 0 <= i < j < |rows| ==> rows[i].status != rows[j].status
  }

  /** With distinct labels a label matches at most one row. */
  lemma {:induction false} UniqueLabelMatchesOnce(rows: seq<RepoStatus>, wanted: string)
    requires UniqueLabels(rows)
    ensures |WithLabel(rows, wanted)| == if exists s :: s in rows && s.status == wanted then 1 else 0
  {
    if rows != [] {
      assert UniqueLabels(rows[1..]) by {
        forall i, j | 0 <= i < j < |rows[1..]| ensures rows[1..][i].status != rows[1..][j].status {
          assert rows[1..][i] == rows[i + 1] && rows[1..][j] == rows[j + 1];
        }
      }
      UniqueLabelMatchesOnce(rows[1..], wanted);
      if rows[0].status == wanted {
        forall s | s in rows[1..] ensures s.status != wanted {
          var k :| 0 <= k < |rows[1..]| && rows[1..][k] == s;
          assert rows[k + 1] == s;
        }
      } else {
        assert rows[0] in rows;
        assert forall s :: s in rows && s.status == wanted ==> s in rows[1..];
      }
    }
  }

  /** When labels are distinct and a label is stored, GetByStatus finds that row. */
  lemma GetByStatusFindsStoredLabel(rows: seq<RepoStatus>, s: RepoStatus)
    requires UniqueLabels(rows) && s in rows
    ensures GetByStatus(rows, s.status, None) == Ok(s)
  {
    UniqueLabelMatchesOnce(rows, s.status);
    var m := WithLabel(rows, s.status);
    assert s in m;
  }

  /** No stored row has an id at or above `bound`. */
  lemma {:induction false} NoIdAtOrAbove(rows: seq<RepoStatus>, bound: int)
    requires forall i :: 0 <= i < |rows| ==> rows[i].id < bound
    ensures WithId(rows, bound) == []
  {
    if rows != [] {
      assert rows[0].id < bound;
      NoIdAtOrAbove(rows[1..], bound);
    }
  }

  /** The id Create returns reads back the created row. */
  lemma CreatedStatusReadsBack(rows: seq<RepoStatus>, next: int, status: string)
    requires forall i :: 0 <= i < |rows| ==> rows[i].id < next
    ensures GetById(rows + [RepoStatus(next, status)], next, None) == Ok(RepoStatus(next, status))
  {
    NoIdAtOrAbove(rows, next);
    WithIdAppend(rows, [RepoStatus(next, status)], next);
  }

  lemma {:induction false} WithIdAppend(a: seq<RepoStatus>, b: seq<RepoStatus>, id: int)
    ensures WithId(a + b, id) == WithId(a, id) + WithId(b, id)
  {
    if a == [] {
      assert a + b == b;
    } else {
      assert (a + b)[1..] == a[1..] + b;
      WithIdAppend(a[1..], b, id);
    }
  }
}
