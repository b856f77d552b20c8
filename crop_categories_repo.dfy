/**
 * The `crops_categories` link table. Both operations report every failure
 * as `"<internal server error>: <cause>"`, the sentinel being text only.
 */
module CropCategoriesRepo {
  import opened Wrappers
  import opened Errors
  import opened Db

  /** The table once every row linking `cropId` to `categoryId` is gone. */
  function WithoutLink(rows: seq<CropCategoryRow>, cropId: int, categoryId: int): (kept: seq<CropCategoryRow>)
    ensures |kept| <= |rows|
    ensures forall r :: r in kept <==> r in rows && r != CropCategoryRow(cropId, categoryId)
  {
    if rows == [] then []
    else
      var rest := WithoutLink(rows[1..], cropId, categoryId);
      assert forall r :: r in rows <==> r == rows[0] || r in rows[1..];
      if rows[0] == CropCategoryRow(cropId, categoryId) then rest else [rows[0]] + rest
  }

  method Create(db: Database, cropId: int, categoryId: int, fault: Option<DbFailure>) returns (err: Option<Error>)
    modifies db`cropsCategories
    ensures err.None? <==> fault.None?
    ensures err.Some? ==> err.value == CauseOnly(Db(fault.value)) && db.cropsCategories == old(db.cropsCategories)
    ensures err.None? ==> db.cropsCategories == old(db.cropsCategories) + [CropCategoryRow(cropId, categoryId)]
  {
    if fault.Some? {
      return Some(CauseOnly(Db(fault.value)));
    }
    db.cropsCategories := db.cropsCategories + [CropCategoryRow(cropId, categoryId)];
    err := None;
  }

  /** `DELETE ... WHERE crop_id = $1 AND category_id = $2`: deleting a missing link is no error. */
  method Delete(db: Database, cropId: int, categoryId: int, fault: Option<DbFailure>) returns (err: Option<Error>)
    modifies db`cropsCategories
    ensures err.None? <==> fault.None?
    ensures err.Some? ==> err.value == CauseOnly(Db(fault.value)) && db.cropsCategories == old(db.cropsCategories)
    ensures err.None? ==> db.cropsCategories == WithoutLink(old(db.cropsCategories), cropId, categoryId)
  {
    if fault.Some? {
      return Some(CauseOnly(Db(fault.value)));
    }
    db.cropsCategories := WithoutLink(db.cropsCategories, cropId, categoryId);
    err := None;
  }

  /** Deleting a link that is not there leaves the table as it was. */
  lemma {:induction false} DeleteAbsentLink(rows: seq<CropCategoryRow>, cropId: int, categoryId: int)
    requires CropCategoryRow(cropId, categoryId) !in rows
    ensures WithoutLink(rows, cropId, categoryId) == rows
  {
    if rows != [] {
      assert rows[0] in rows;
      assert forall r :: r in rows[1..] ==> r in rows;
      DeleteAbsentLink(rows[1..], cropId, categoryId);
    }
  }

  /** Delete is idempotent: a second delete of the same link changes nothing. */
  lemma DeleteTwice(rows: seq<CropCategoryRow>, cropId: int, categoryId: int)
    ensures WithoutLink(WithoutLink(rows, cropId, categoryId), cropId, categoryId) == WithoutLink(rows, cropId, categoryId)
  {
    DeleteAbsentLink(WithoutLink(rows, cropId, categoryId), cropId, categoryId);
  }

  /** Deleting a link just created removes every copy of it and keeps every other row, in order. */
  lemma {:induction false} DeleteUndoesCreate(rows: seq<CropCategoryRow>, cropId: int, categoryId: int)
    ensures WithoutLink(rows + [CropCategoryRow(cropId, categoryId)], cropId, categoryId) == WithoutLink(rows, cropId, categoryId)
  {
    if rows == [] {
      assert rows + [CropCategoryRow(cropId, categoryId)] == [CropCategoryRow(cropId, categoryId)];
    } else {
      assert (rows + [CropCategoryRow(cropId, categoryId)])[1..] == rows[1..] + [CropCategoryRow(cropId, categoryId)];
      DeleteUndoesCreate(rows[1..], cropId, categoryId);
    }
  }
}
