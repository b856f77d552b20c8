/**
 * What the driver delivers for a multi-row query: either `Query` itself
 * fails, or a sequence of rows, each of which may fail to scan into the
 * destination variables, possibly followed by an error that ended the
 * iteration early (what `rows.Err()` would report).
 */
module Rows {
  import opened Wrappers
  import opened Errors

  datatype Scan<T> = Scanned(value: T) | ScanFailed(failure: DbFailure)

  datatype QueryReply<T> =
    | QueryFailed(failure: DbFailure)
    | Delivered(rows: seq<Scan<T>>, iterationError: Option<DbFailure>)

  predicate AllScanned<T>(rows: seq<Scan<T>>) {
    forall i :: 0 <= i < |rows| ==> rows[i].Scanned?
  }

  /** The failure of the first row that does not scan. */
  function FirstFailure<T>(rows: seq<Scan<T>>): (f: DbFailure)
    requires !AllScanned(rows)
    ensures exists i :: 0 <= i < |rows| && rows[i] == ScanFailed(f) && AllScanned(rows[..i])
  {
    if rows[0].ScanFailed? then
      assert AllScanned(rows[..0]);
      rows[0].failure
    else
      var f := FirstFailure(rows[1..]);
      var i :| 0 <= i < |rows[1..]| && rows[1..][i] == ScanFailed(f) && AllScanned(rows[1..][..i]);
      assert rows[..i + 1] == [rows[0]] + rows[1..][..i];
      f
  }

  /** A row that fails after only scanned rows is the first failure. */
  lemma {:induction false} FirstFailureAt<T>(rows: seq<Scan<T>>, i: nat)
    requires i < |rows| && rows[i].ScanFailed? && AllScanned(rows[..i])
    ensures !AllScanned(rows) && FirstFailure(rows) == rows[i].failure
  {
    if i > 0 {
      assert rows[0] == rows[..i][0];
      assert rows[1..][..i - 1] == rows[..i][1..];
      FirstFailureAt(rows[1..], i - 1);
    }
  }
}
