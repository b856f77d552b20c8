/** The article listing endpoint: `GET` with optional `crop_id`, `category_id` and `status`. */
module ArticleHttp {
  import opened Wrappers
  import opened Errors
  import opened Model
  import opened Db
  import opened Http
  import Decimal
  import ArticleService

  const InvalidCropIdParam := "invalid crop_id query param"
  const InvalidCategoryIdParam := "invalid category_id query param"

  /** Reads `crop_id`, then `category_id`, then `status` (any non-empty text); limit and offset stay unset. */
  function GetAllQueryParams(q: Query): (r: Result<ArticleGetAllParams, string>)
    ensures r.Ok? <==> Parses(q, "crop_id") && Parses(q, "category_id")
    ensures r.Ok? ==>
      ParsedAs(q, "crop_id", r.value.cropId) && ParsedAs(q, "category_id", r.value.categoryId) &&
      r.value.limit.None? && r.value.offset.None? &&
      r.value.status == (if Get(q, "status") == "" then None else Some(Get(q, "status")))
    ensures !Parses(q, "crop_id") ==> r == Err(InvalidCropIdParam)
    ensures Parses(q, "crop_id") && !Parses(q, "category_id") ==> r == Err(InvalidCategoryIdParam)
  {
    match OptionalInt(q, "crop_id", InvalidCropIdParam)
    case Err(m) => Err(m)
    case Ok(cropId) =>
      match OptionalInt(q, "category_id", InvalidCategoryIdParam)
      case Err(m) => Err(m)
      case Ok(categoryId) =>
        var status := Get(q, "status");
        Ok(ArticleGetAllParams(cropId, categoryId, None, None, if status == "" then None else Some(status)))
  }

  /** The query a client sends for `p`: the ids in decimal, the status as is. */
  function GetAllQuery(p: ArticleGetAllParams): Query {
    var q := WithInt(WithInt(map[], "crop_id", p.cropId), "category_id", p.categoryId);
    if p.status.Some? then q["status" := [p.status.value]] else q
  }

  /** Parameters written into the query parse back, the status too when it is not empty. */
  lemma GetAllQueryRoundTrip(p: ArticleGetAllParams)
    requires p.cropId.Some? ==> Decimal.MinInt <= p.cropId.value <= Decimal.MaxInt
    requires p.categoryId.Some? ==> Decimal.MinInt <= p.categoryId.value <= Decimal.MaxInt
    requires p.status != Some("")
    ensures GetAllQueryParams(GetAllQuery(p)) == Ok(p.(limit := None, offset := None))
  {
    var q := GetAllQuery(p);
    if p.cropId.Some? {
      assert Get(q, "crop_id") == Decimal.FormatInt(p.cropId.value);
      Decimal.AtoiOfFormatInt(p.cropId.value);
    } else {
      assert Get(q, "crop_id") == "";
    }
    if p.categoryId.Some? {
      assert Get(q, "category_id") == Decimal.FormatInt(p.categoryId.value);
      Decimal.AtoiOfFormatInt(p.categoryId.value);
    } else {
      assert Get(q, "category_id") == "";
    }
  }

  /**
   * `GET /articles`: `listed` and `imageFaults` are the repositories'
   * answers for the parsed parameters. The service never reports invalid
   * arguments, so a 400 always comes from the parser; any service failure
   * is a 500 and the articles read so far are not sent.
   */
  method GetAllHandler(db: Database, q: Query, tx: ArticleService.TxFaults, listed: Result<seq<RepoArticle>, Error>,
                       imageFaults: seq<Option<DbFailure>>)
    returns (resp: Response<seq<Article>>)
    ensures GetAllQueryParams(q).Err? ==> resp == Response(StatusBadRequest, Message(GetAllQueryParams(q).error))
    ensures GetAllQueryParams(q).Ok? ==> resp.status != StatusBadRequest
    ensures GetAllQueryParams(q).Ok? ==>
      (resp.status == StatusOK <==>
         tx.begin.None? && listed.Ok? && tx.commit.None? &&
         forall i :: 0 <= i < |listed.value| ==> ArticleService.FaultAt(imageFaults, i).None?)
    ensures GetAllQueryParams(q).Ok? && resp.status != StatusOK ==>
      resp.status == StatusInternalServerError && resp.body.ErrorText?
    ensures resp.status == StatusOK ==>
      listed.Ok? && resp.body.Data? && |resp.body.value| == |listed.value| &&
      forall i :: 0 <= i < |listed.value| ==>
        resp.body.value[i] == ArticleService.WithImages(listed.value[i], db.articleImages)
    ensures resp.status in {StatusOK, StatusBadRequest, StatusInternalServerError}
  {
    var params := GetAllQueryParams(q);
    if params.Err? {
      return Response(StatusBadRequest, Message(params.error));
    }
    var articles, err := ArticleService.GetAll(db, tx, listed, imageFaults);
    if err.Some? {
      var e := err.value;
      if Is(e, ArticleService.ErrInvalidArguments) {
        return Response(StatusBadRequest, ErrorText(e));
      }
      return Response(StatusInternalServerError, ErrorText(e));
    }
    resp := Response(StatusOK, Data(articles));
  }
}
