/**
 * The category endpoints: `GET` listing with optional `crop_id`, `limit`
 * and `offset` query parameters, and `POST` creation with an optional
 * `crop_id` and a JSON body whose name is required.
 */
module CategoryHttp {
  import opened Wrappers
  import opened Errors
  import opened Model
  import opened Db
  import opened Http
  import Decimal
  import CategoryService
  import Converter

  const InvalidCropIdParam := "invalid crop_id query param"
  const InvalidLimitParam := "invalid limit query param"
  const InvalidOffsetParam := "invalid offset query param"

  /** Reads `crop_id`, `limit` and `offset` in that order; the first that does not parse decides the message. */
  function GetAllQueryParams(q: Query): (r: Result<CategoryGetAllParams, string>)
    ensures r.Ok? <==> Parses(q, "crop_id") && Parses(q, "limit") && Parses(q, "offset")
    ensures r.Ok? ==>
      ParsedAs(q, "crop_id", r.value.cropId) && ParsedAs(q, "limit", r.value.limit) &&
      ParsedAs(q, "offset", r.value.offset) && r.value.status.None?
    ensures !Parses(q, "crop_id") ==> r == Err(InvalidCropIdParam)
    ensures Parses(q, "crop_id") && !Parses(q, "limit") ==> r == Err(InvalidLimitParam)
    ensures Parses(q, "crop_id") && Parses(q, "limit") && !Parses(q, "offset") ==> r == Err(InvalidOffsetParam)
  {
    match OptionalInt(q, "crop_id", InvalidCropIdParam)
    case Err(m) => Err(m)
    case Ok(cropId) =>
      match OptionalInt(q, "limit", InvalidLimitParam)
      case Err(m) => Err(m)
      case Ok(limit) =>
        match OptionalInt(q, "offset", InvalidOffsetParam)
        case Err(m) => Err(m)
        case Ok(offset) => Ok(CategoryGetAllParams(cropId, limit, offset, None))
  }

  /** The query a client sends for `p` (the status is not a query parameter of this endpoint). */
  function GetAllQuery(p: CategoryGetAllParams): Query {
    WithInt(WithInt(WithInt(map[], "crop_id", p.cropId), "limit", p.limit), "offset", p.offset)
  }

  predicate InRange(v: Option<int>) {
    v.Some? ==> Decimal.MinInt <= v.value <= Decimal.MaxInt
  }

  /** Parameters written into the query by a client are parsed back as they were. */
  lemma GetAllQueryRoundTrip(p: CategoryGetAllParams)
    requires InRange(p.cropId) && InRange(p.limit) && InRange(p.offset)
    ensures GetAllQueryParams(GetAllQuery(p)) == Ok(p.(status := None))
  {
    var q := GetAllQuery(p);
    if p.cropId.Some? {
      assert Get(q, "crop_id") == Decimal.FormatInt(p.cropId.value);
      Decimal.AtoiOfFormatInt(p.cropId.value);
    } else {
      assert Get(q, "crop_id") == "";
    }
    if p.limit.Some? {
      assert Get(q, "limit") == Decimal.FormatInt(p.limit.value);
      Decimal.AtoiOfFormatInt(p.limit.value);
    } else {
      assert Get(q, "limit") == "";
    }
    if p.offset.Some? {
      assert Get(q, "offset") == Decimal.FormatInt(p.offset.value);
      Decimal.AtoiOfFormatInt(p.offset.value);
    } else {
      assert Get(q, "offset") == "";
    }
  }

  /**
   * `GET /categories`: `listed` is the repository's answer. The service
   * never fails, so the 500 branch is never taken.
   */
  method GetAllHandler(q: Query, listed: Result<seq<RepoCategory>, Error>) returns (resp: Response<seq<Category>>)
    ensures GetAllQueryParams(q).Err? ==> resp == Response(StatusBadRequest, Message(GetAllQueryParams(q).error))
    ensures GetAllQueryParams(q).Ok? ==>
      resp.status == StatusOK && resp.body.Data? &&
      |resp.body.value| == (if listed.Ok? then |listed.value| else 0)
    ensures GetAllQueryParams(q).Ok? && listed.Ok? ==>
      forall i :: 0 <= i < |listed.value| ==> resp.body.value[i] == Converter.ToCategory(listed.value[i])
    ensures resp.status != StatusInternalServerError
  {
    var params := GetAllQueryParams(q);
    if params.Err? {
      return Response(StatusBadRequest, Message(params.error));
    }
    var categories, err := CategoryService.List(listed);
    match err {
      case Some(e) => return Response(StatusInternalServerError, ErrorText(e));
      case None =>
    }
    resp := Response(StatusOK, Data(categories));
  }

  // ----- create -----

  const InvalidCropId := "invalid crop_id"
  const InvalidBodyFormat := "invalid request body format"
  const InvalidArguments := "invalid arguments"
  const InternalError := "internal server error"

  function CreateParams(q: Query): (r: Result<CategoryCreateParams, string>)
    ensures r.Ok? <==> Parses(q, "crop_id")
    ensures r.Ok? ==> ParsedAs(q, "crop_id", r.value.cropId)
    ensures r.Err? ==> r.error == InvalidCropId
  {
    match OptionalInt(q, "crop_id", InvalidCropId)
    case Err(m) => Err(m)
    case Ok(cropId) => Ok(CategoryCreateParams(cropId))
  }

  /** The body's validation rules: the name is required, so it must not be empty. */
  predicate Valid(info: CategoryInfo) {
    info.name != ""
  }

  /**
   * `POST /categories`: `decoded` is the JSON body, or None when it does
   * not decode. The service reports a duplicate as an internal error, so
   * the "already exists" 400 branch is never taken: every 400 carries one
   * of the handler's own messages.
   */
  method CreateHandler(db: Database, q: Query, decoded: Option<CategoryInfo>, fault: Option<DbFailure>)
    returns (resp: Response<int>)
    modifies db`categories, db`categorySeq
    ensures CreateParams(q).Err? ==> resp == Response(StatusBadRequest, Message(InvalidCropId))
    ensures CreateParams(q).Ok? && decoded.None? ==> resp == Response(StatusBadRequest, Message(InvalidBodyFormat))
    ensures CreateParams(q).Ok? && decoded.Some? && !Valid(decoded.value) ==>
      resp == Response(StatusBadRequest, Message(InvalidArguments))
    ensures CreateParams(q).Ok? && decoded.Some? && Valid(decoded.value) ==>
      if fault.None? then
        resp == Response(StatusCreated, Data(old(db.categorySeq))) &&
        db.categories == old(db.categories) + [CategoryRow(old(db.categorySeq), decoded.value.name)]
      else
        resp == Response(StatusInternalServerError, Message(InternalError))
    ensures resp.status != StatusCreated ==> db.categories == old(db.categories)
    ensures resp.status == StatusBadRequest ==> resp.body.Message?
    ensures resp.status == StatusBadRequest ==> db.categorySeq == old(db.categorySeq)
    ensures resp.status == StatusInternalServerError ==>
      fault.Some? && db.categorySeq == old(db.categorySeq) + SerialsDrawn(fault.value)
  {
    var params := CreateParams(q);
    if params.Err? {
      return Response(StatusBadRequest, Message(params.error));
    }
    if decoded.None? {
      return Response(StatusBadRequest, Message(InvalidBodyFormat));
    }
    if !Valid(decoded.value) {
      return Response(StatusBadRequest, Message(InvalidArguments));
    }
    var id, err := CategoryService.Create(db, decoded.value, fault);
    if err.Some? {
      var e := err.value;
      if Is(e, CategoryService.ErrAlreadyExists) {
        return Response(StatusBadRequest, ErrorText(e));
      }
      return Response(StatusInternalServerError, Message(InternalError));
    }
    resp := Response(StatusCreated, Data(id));
  }
}
