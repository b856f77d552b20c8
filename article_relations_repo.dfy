/**
 * The `articles_relations` table: which crop and category an article is
 * filed under. A unique or foreign-key violation is reported through the
 * package's sentinels with `%w`; any other failure only names the
 * internal-error sentinel as text.
 */
module ArticleRelationsRepo {
  import opened Wrappers
  import opened Errors
  import opened Db

  const ErrAlreadyExists := Sentinel(Layer.ArticleRelationsRepo, Kind.AlreadyExists)
  const ErrInvalidArguments := Sentinel(Layer.ArticleRelationsRepo, Kind.InvalidArguments)
  const ErrInternalServerError := Sentinel(Layer.ArticleRelationsRepo, Kind.InternalServerError)

  /** The error Create returns when the insert fails with `f`. */
  function CreateError(f: DbFailure): (e: Error)
    ensures e.cause == Some(Db(f))
    ensures Is(e, ErrAlreadyExists) <==> f == PgError(UniqueViolation)
    ensures Is(e, ErrInvalidArguments) <==> f == PgError(ForeignKeyViolation)
    ensures !Is(e, ErrInternalServerError)
    ensures |e.wraps| <= 1
  {
    match f
    case PgError(UniqueViolation) => Wrapping(ErrAlreadyExists, Db(f))
    case PgError(ForeignKeyViolation) => Wrapping(ErrInvalidArguments, Db(f))
    case _ => CauseOnly(Db(f))
  }

  method Create(db: Database, cropId: int, categoryId: int, articleId: int, fault: Option<DbFailure>)
    returns (err: Option<Error>)
    modifies db`articleRelations
    ensures err.None? <==> fault.None?
    ensures err.Some? ==> err.value == CreateError(fault.value) && db.articleRelations == old(db.articleRelations)
    ensures err.None? ==> db.articleRelations == old(db.articleRelations) + [ArticleRelationRow(cropId, categoryId, articleId)]
  {
    if fault.Some? {
      return Some(CreateError(fault.value));
    }
    db.articleRelations := db.articleRelations + [ArticleRelationRow(cropId, categoryId, articleId)];
    err := None;
  }
}
