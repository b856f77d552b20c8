/**
 * Go errors as the model sees them.
 *
 * Every package of the service declares its own sentinel values
 * (`crop.ErrAlreadyExists` and `article.ErrAlreadyExists` are different
 * values), so a sentinel is tagged with the package that declares it.
 * `errors.Is(err, s)` holds exactly when `s` is in the error's `wraps` set:
 * `fmt.Errorf("%w", s)` puts `s` there, `fmt.Errorf("%s", s)` only copies
 * its text and does not.
 */
module Errors {
  import opened Wrappers

  /** The kinds of sentinel error the packages declare. */
  datatype Kind = AlreadyExists | InvalidArguments | InternalServerError | NotFound | AccessDenied

  /** The package that declares a sentinel. */
  datatype Layer =
    | ArticleRepo | ArticleImagesRepo | ArticleRelationsRepo | CropCategoriesRepo
    | CategoryRepo | CropRepo
    | ArticleService | CropService | CategoryService | StatusService | UserService

  datatype Sentinel = Sentinel(layer: Layer, kind: Kind)

  /** Postgres SQLSTATE codes, as far as the repositories tell them apart. */
  datatype PgCode = UniqueViolation | ForeignKeyViolation | OtherCode(code: string)

  /**
   * What the driver reports for a failing statement: a `*pgconn.PgError`
   * carrying a code, or any other failure (connection loss, a client-side
   * check of the driver) for which `errors.As(err, &pgErr)` is false.
   */
  datatype DbFailure = PgError(code: PgCode) | ClientError

  /**
   * Serial values a failed insert used up. The server evaluates a serial
   * column's default before it checks any constraint, so a statement it
   * rejected with a code drew one; a failure on the client side drew none.
   */
  function SerialsDrawn(f: DbFailure): nat {
    if f.PgError? then 1 else 0
  }

  /**
   * The underlying error an error value wraps with `%w`: a failing statement,
   * a query the builder refused to render, a failing remote call, or a
   * single-row read that found `rowCount` rows instead of one.
   */
  datatype Cause = Db(failure: DbFailure) | BuildFailure | RemoteFailure | RowCount(rowCount: nat)

  datatype Error = Error(wraps: set<Sentinel>, cause: Option<Cause>)

  /** `errors.Is(e, s)` for a sentinel `s`. */
  predicate Is(e: Error, s: Sentinel) {
    s in e.wraps
  }

  /** The sentinel itself, returned as the error value. */
  function Bare(s: Sentinel): Error {
    Error({s}, None)
  }

  /** `fmt.Errorf("...: %w: %w", s, cause)`: both are matched by `errors.Is`. */
  function Wrapping(s: Sentinel, c: Cause): Error {
    Error({s}, Some(c))
  }

  /** An error that wraps only its cause, so no sentinel matches it. */
  function CauseOnly(c: Cause): Error {
    Error({}, Some(c))
  }
}
