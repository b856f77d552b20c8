/**
 * The `articles` table. Create stores the crop, the category, the title
 * and the text (the Latin name is not among the inserted columns) and
 * wraps every failure as `"<op>: <sentinel>: <cause>"`, both with `%w`.
 */
module ArticleRepo {
  import opened Wrappers
  import opened Errors
  import opened Model
  import opened Db

  const ErrAlreadyExists := Sentinel(Layer.ArticleRepo, Kind.AlreadyExists)
  const ErrInvalidArguments := Sentinel(Layer.ArticleRepo, Kind.InvalidArguments)
  const ErrInternalServerError := Sentinel(Layer.ArticleRepo, Kind.InternalServerError)

  /** The error Create returns when the insert fails with `f`: exactly one sentinel, and the cause. */
  function CreateError(f: DbFailure): (e: Error)
    ensures e.cause == Some(Db(f)) && |e.wraps| == 1
    ensures Is(e, ErrAlreadyExists) <==> f == PgError(UniqueViolation)
    ensures Is(e, ErrInvalidArguments) <==> f == PgError(ForeignKeyViolation)
    ensures Is(e, ErrInternalServerError) <==> f != PgError(UniqueViolation) && f != PgError(ForeignKeyViolation)
  {
    match f
    case PgError(UniqueViolation) => Wrapping(ErrAlreadyExists, Db(f))
    case PgError(ForeignKeyViolation) => Wrapping(ErrInvalidArguments, Db(f))
    case _ => Wrapping(ErrInternalServerError, Db(f))
  }

  /** An `articles` row as the repository's article: the Latin name is not a stored column, so it reads back empty. */
  function Stored(row: ArticleRow): RepoArticle {
    RepoArticle(row.id, RepoArticleBody(row.title, "", row.text))
  }

  /** `INSERT INTO articles(crop_id, category_id, title, text) VALUES ($1, $2, $3, $4) RETURNING id`. */
  method Create(db: Database, cropId: int, categoryId: int, body: RepoArticleBody, fault: Option<DbFailure>)
    returns (id: int, err: Option<Error>)
    modifies db`articles, db`articleSeq
    ensures err.None? <==> fault.None?
    ensures err.None? ==> id == old(db.articleSeq) && db.articleSeq == id + 1
    ensures err.None? ==> db.articles == old(db.articles) + [ArticleRow(id, cropId, categoryId, body.title, body.text)]
    ensures err.Some? ==> id == 0 && err.value == CreateError(fault.value)
    ensures err.Some? ==> db.articles == old(db.articles) && db.articleSeq == old(db.articleSeq) + SerialsDrawn(fault.value)
  {
    if fault.Some? {
      db.articleSeq := db.articleSeq + SerialsDrawn(fault.value);
      return 0, Some(CreateError(fault.value));
    }
    id := db.articleSeq;
    db.articles := db.articles + [ArticleRow(id, cropId, categoryId, body.title, body.text)];
    db.articleSeq := id + 1;
    err := None;
  }
}
