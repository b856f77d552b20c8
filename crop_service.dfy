/**
 * The crop service: converts between the domain and repository models and
 * turns every repository failure into the service's internal-error
 * sentinel, except that a duplicate crop stays "already exists".
 */
module CropService {
  import opened Wrappers
  import opened Errors
  import opened Model
  import opened Db
  import opened Rows
  import opened Converter
  import CropRepo

  const ErrAlreadyExists := Sentinel(Layer.CropService, Kind.AlreadyExists)
  const ErrInternalServerError := Sentinel(Layer.CropService, Kind.InternalServerError)

  /** What a failed crop insert becomes. */
  function CreateError(e: Error): (s: Error)
    ensures s == Bare(ErrAlreadyExists) || s == Bare(ErrInternalServerError)
    ensures Is(s, ErrAlreadyExists) <==> Is(e, CropRepo.ErrAlreadyExists)
  {
    if Is(e, CropRepo.ErrAlreadyExists) then Bare(ErrAlreadyExists) else Bare(ErrInternalServerError)
  }

  /** Stores a crop (with status 0, the converter's status argument being absent at the call). */
  method Create(db: Database, info: CropInfo, fault: Option<DbFailure>) returns (id: int, err: Option<Error>)
    modifies db`crops, db`cropSeq
    ensures err.None? <==> fault.None?
    ensures err.None? ==> id == old(db.cropSeq) && db.crops == old(db.crops) + [CropRow(id, info.name)]
    ensures err.None? ==> db.cropSeq == old(db.cropSeq) + 1
    ensures err.Some? ==> id == 0 && db.crops == old(db.crops) && db.cropSeq == old(db.cropSeq) + SerialsDrawn(fault.value)
    ensures err.Some? ==> err.value == CreateError(CropRepo.CreateError(fault.value))
  {
    var e: Option<Error>;
    id, e := CropRepo.Create(db, ToRepoCropInfo(info, 0), fault);
    if e.Some? {
      return 0, Some(CreateError(e.value));
    }
    err := None;
  }

  /** Only a unique violation makes Create answer "already exists". */
  lemma CreateAlreadyExistsOnlyOnDuplicate(f: DbFailure)
    ensures CreateError(CropRepo.CreateError(f)) == if f == PgError(UniqueViolation) then Bare(ErrAlreadyExists) else Bare(ErrInternalServerError)
  {
  }

  /** The domain crop a scanned `(id, name)` row becomes. */
  function ListedCrop(cols: (int, string)): (c: Crop)
    ensures c == Crop(cols.0, CropInfo(cols.1, None, None), ZeroTime, ZeroTime)
  {
    ToCrop(CropRepo.CropOf(cols))
  }

  /** Lists every crop, converted one by one; any repository failure yields no crop at all. */
  method GetAll(reply: QueryReply<(int, string)>) returns (crops: seq<Crop>, err: Option<Error>)
    ensures err.None? <==> reply.Delivered? && AllScanned(reply.rows)
    ensures err.Some? ==> crops == [] && err.value == Bare(ErrInternalServerError)
    ensures err.None? ==>
      |crops| == |reply.rows| && forall i :: 0 <= i < |crops| ==> crops[i] == ListedCrop(reply.rows[i].value)
  {
    var repoCrops, e := CropRepo.GetAll(reply);
    if e.Some? {
      return [], Some(Bare(ErrInternalServerError));
    }
    crops := [];
    var i := 0;
    while i < |repoCrops|
      invariant 0 <= i <= |repoCrops| && |crops| == i
      invariant forall k :: 0 <= k < i ==> crops[k] == ToCrop(repoCrops[k])
    {
      crops := crops + [ToCrop(repoCrops[i])];
      i := i + 1;
    }
    err := None;
  }

  /** `found` is the crop repository's answer for the id. */
  function GetById(found: Result<RepoCrop, Error>): (r: (Option<Crop>, Option<Error>))
    ensures r.0.Some? <==> r.1.None?
    ensures r.1.None? <==> found.Ok?
    ensures found.Ok? ==> r.0.value.id == found.value.id && r.0.value.info.name == found.value.info.name &&
                          r.0.value.info.description == found.value.info.description && r.0.value.info.img == found.value.info.img
    ensures found.Err? ==> r.1 == Some(Bare(ErrInternalServerError))
  {
    if found.Err? then (None, Some(Bare(ErrInternalServerError))) else (Some(ToCrop(found.value)), None)
  }

  /** `updated` is the crop repository's answer to `ToRepoCropUpdateInput(input)`. */
  function Update(updated: Option<Error>): (err: Option<Error>)
    ensures err.Some? <==> updated.Some?
    ensures err.Some? ==> err.value == Bare(ErrInternalServerError) && !Is(err.value, ErrAlreadyExists)
  {
    if updated.Some? then Some(Bare(ErrInternalServerError)) else None
  }
}
