/**
 * The `crops` table. Failures are wrapped as
 * `"<op>: <sentinel>: <cause>"`, both with `%w`.
 */
module CropRepo {
  import opened Wrappers
  import opened Errors
  import opened Model
  import opened Db
  import opened Rows

  const ErrAlreadyExists := Sentinel(Layer.CropRepo, Kind.AlreadyExists)
  const ErrInternalServerError := Sentinel(Layer.CropRepo, Kind.InternalServerError)

  /** The error Create returns when the insert fails with `f`. */
  function CreateError(f: DbFailure): (e: Error)
    ensures e.cause == Some(Db(f)) && |e.wraps| == 1
    ensures Is(e, ErrAlreadyExists) <==> f == PgError(UniqueViolation)
    ensures Is(e, ErrInternalServerError) <==> f != PgError(UniqueViolation)
  {
    if f == PgError(UniqueViolation) then Wrapping(ErrAlreadyExists, Db(f))
    else Wrapping(ErrInternalServerError, Db(f))
  }

  /** `INSERT INTO crops (name) VALUES ($1) RETURNING id`: only the name is stored. */
  method Create(db: Database, info: RepoCropInfo, fault: Option<DbFailure>) returns (id: int, err: Option<Error>)
    modifies db`crops, db`cropSeq
    ensures err.None? <==> fault.None?
    ensures err.None? ==> id == old(db.cropSeq) && db.cropSeq == id + 1
    ensures err.None? ==> db.crops == old(db.crops) + [CropRow(id, info.name)]
    ensures err.Some? ==> id == 0 && err.value == CreateError(fault.value)
    ensures err.Some? ==> db.crops == old(db.crops) && db.cropSeq == old(db.cropSeq) + SerialsDrawn(fault.value)
  {
    if fault.Some? {
      db.cropSeq := db.cropSeq + SerialsDrawn(fault.value);
      return 0, Some(CreateError(fault.value));
    }
    id := db.cropSeq;
    db.crops := db.crops + [CropRow(id, info.name)];
    db.cropSeq := id + 1;
    err := None;
  }

  /** The crop a scanned `(id, name)` becomes: description, image and status keep their zero values. */
  function CropOf(cols: (int, string)): RepoCrop {
    RepoCrop(cols.0, RepoCropInfo(cols.1, None, None, 0), ZeroTime, ZeroTime)
  }

  /**
   * `SELECT id, name FROM crops`, scanned row by row. An error that ends
   * the iteration early is never consulted: the rows read so far are
   * returned as the whole table.
   */
  method GetAll(reply: QueryReply<(int, string)>) returns (crops: seq<RepoCrop>, err: Option<Error>)
    ensures reply.QueryFailed? ==> crops == [] && err == Some(Wrapping(ErrInternalServerError, Db(reply.failure)))
    ensures reply.Delivered? && AllScanned(reply.rows) ==>
      err.None? && |crops| == |reply.rows| &&
      forall i :: 0 <= i < |crops| ==> crops[i] == CropOf(reply.rows[i].value)
    ensures reply.Delivered? && !AllScanned(reply.rows) ==>
      crops == [] && err == Some(Wrapping(ErrInternalServerError, Db(FirstFailure(reply.rows))))
  {
    if reply.QueryFailed? {
      return [], Some(Wrapping(ErrInternalServerError, Db(reply.failure)));
    }
    var rows := reply.rows;
    crops := [];
    var i := 0;
    while i < |rows|
      invariant 0 <= i <= |rows|
      invariant AllScanned(rows[..i])
      invariant |crops| == i
      invariant forall k :: 0 <= k < i ==> crops[k] == CropOf(rows[k].value)
    {
      if rows[i].ScanFailed? {
        FirstFailureAt(rows, i);
        return [], Some(Wrapping(ErrInternalServerError, Db(rows[i].failure)));
      }
      assert rows[..i + 1] == rows[..i] + [rows[i]];
      crops := crops + [CropOf(rows[i].value)];
      i := i + 1;
    }
    assert rows[..i] == rows;
    err := None;
  }
}
