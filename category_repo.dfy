/**
 * The `categories` table. Create reports failures as the package's bare
 * sentinels, dropping the cause. GetAll assembles its SQL text by hand:
 * each optional filter appends a clause whose `$n` placeholder is the
 * 1-based position its value takes in the argument list.
 */
module CategoryRepo {
  import opened Wrappers
  import opened Errors
  import opened Model
  import opened Db
  import opened Rows
  import Decimal

  const ErrAlreadyExists := Sentinel(Layer.CategoryRepo, Kind.AlreadyExists)
  const ErrInvalidArguments := Sentinel(Layer.CategoryRepo, Kind.InvalidArguments)
  const ErrInternalServerError := Sentinel(Layer.CategoryRepo, Kind.InternalServerError)

  /** The error Create returns when the insert fails with `f`: a sentinel alone. */
  function CreateError(f: DbFailure): (e: Error)
    ensures e.cause.None? && |e.wraps| == 1
    ensures Is(e, ErrAlreadyExists) <==> f == PgError(UniqueViolation)
    ensures Is(e, ErrInvalidArguments) <==> f == PgError(ForeignKeyViolation)
    ensures Is(e, ErrInternalServerError) <==> f != PgError(UniqueViolation) && f != PgError(ForeignKeyViolation)
  {
    match f
    case PgError(UniqueViolation) => Bare(ErrAlreadyExists)
    case PgError(ForeignKeyViolation) => Bare(ErrInvalidArguments)
    case _ => Bare(ErrInternalServerError)
  }

  /** `INSERT INTO categories (name) VALUES ($1) RETURNING id`: only the name is stored. */
  method Create(db: Database, info: RepoCategoryInfo, fault: Option<DbFailure>) returns (id: int, err: Option<Error>)
    modifies db`categories, db`categorySeq
    ensures err.None? <==> fault.None?
    ensures err.None? ==> id == old(db.categorySeq) && db.categorySeq == id + 1
    ensures err.None? ==> db.categories == old(db.categories) + [CategoryRow(id, info.name)]
    ensures err.Some? ==> id == 0 && err.value == CreateError(fault.value)
    ensures err.Some? ==> db.categories == old(db.categories) && db.categorySeq == old(db.categorySeq) + SerialsDrawn(fault.value)
  {
    if fault.Some? {
      db.categorySeq := db.categorySeq + SerialsDrawn(fault.value);
      return 0, Some(CreateError(fault.value));
    }
    id := db.categorySeq;
    db.categories := db.categories + [CategoryRow(id, info.name)];
    db.categorySeq := id + 1;
    err := None;
  }

  // ----- GetAll: the query text -----

  const BaseQuery := "\n\t\tSELECT id, name\n\t\tFROM categories\n\t\tWHERE true\n\t"

  datatype FilterKind = CropFilter | LimitFilter | OffsetFilter

  /** One optional filter that is present, with the value bound to its placeholder. */
  datatype Filter = Filter(kind: FilterKind, value: int)

  function Rank(k: FilterKind): nat {
    match k
    case CropFilter => 0
    case LimitFilter => 1
    case OffsetFilter => 2
  }

  /** The filters present in `p`, in the order GetAll appends them. */
  function Filters(p: RepoCategoryGetAllParams): seq<Filter> {
    var crop := if p.cropId.Some? then [Filter(CropFilter, p.cropId.value)] else [];
    var limit := if p.limit.Some? then crop + [Filter(LimitFilter, p.limit.value)] else crop;
    if p.offset.Some? then limit + [Filter(OffsetFilter, p.offset.value)] else limit
  }

  /** Each filter appears exactly when its parameter is set, with its value, crop before limit before offset. */
  lemma FiltersInOrder(p: RepoCategoryGetAllParams)
    ensures var fs := Filters(p);
      |fs| <= 3 &&
      (forall i, j :: 0 <= i < j < |fs| ==> Rank(fs[i].kind) < Rank(fs[j].kind)) &&
      (forall v :: Filter(CropFilter, v) in fs <==> p.cropId == Some(v)) &&
      (forall v :: Filter(LimitFilter, v) in fs <==> p.limit == Some(v)) &&
      (forall v :: Filter(OffsetFilter, v) in fs <==> p.offset == Some(v))
  {
  }

  function Keyword(k: FilterKind): string {
    match k
    case CropFilter => " AND crop_id = $"
    case LimitFilter => " LIMIT $"
    case OffsetFilter => " OFFSET $"
  }

  /** The clauses of `fs`, the first numbered `first`, each next one a number higher. */
  function Clauses(fs: seq<Filter>, first: nat): string {
    if fs == [] then "" else Keyword(fs[0].kind) + Decimal.NatToString(first) + Clauses(fs[1..], first + 1)
  }

  /** The argument list: the filters' values, in order. */
  function Arguments(fs: seq<Filter>): (args: seq<int>)
    ensures |args| == |fs|
  {
    if fs == [] then [] else [fs[0].value] + Arguments(fs[1..])
  }

  /** The `i`-th argument is the value of the `i`-th filter, the one whose placeholder is `$(i+1)`. */
  lemma {:induction false} ArgumentsValues(fs: seq<Filter>)
    ensures forall i :: 0 <= i < |fs| ==> Arguments(fs)[i] == fs[i].value
  {
    if fs != [] {
      ArgumentsValues(fs[1..]);
    }
  }

  /** `strings.Join(parts, sep)`. */
  function Join(parts: seq<string>, sep: string): string {
    if |parts| == 0 then "" else if |parts| == 1 then parts[0] else parts[0] + sep + Join(parts[1..], sep)
  }

  /**
   * Builds the query text and its arguments as GetAll does: the crop
   * condition goes through a list of conditions joined with " AND ", limit
   * and offset are appended directly, each numbered `len(args) + 1`.
   */
  method BuildGetAllQuery(p: RepoCategoryGetAllParams) returns (query: string, args: seq<int>)
    ensures query == BaseQuery + Clauses(Filters(p), 1)
    ensures args == Arguments(Filters(p))
  {
    query := BaseQuery;
    args := [];
    ghost var built: seq<Filter> := [];
    var conditions: seq<string> := [];
    if p.cropId.Some? {
      conditions := conditions + ["crop_id = $" + Decimal.NatToString(|args| + 1)];
      args := args + [p.cropId.value];
      built := [Filter(CropFilter, p.cropId.value)];
      ArgumentsAppend([], built[0]);
      assert [] + [built[0]] == built;
    }
    if |conditions| > 0 {
      query := query + (" AND " + Join(conditions, " AND "));
      assert query == BaseQuery + Clauses(built, 1) by {
        CropClause(conditions, p.cropId.value);
      }
    }
    if p.limit.Some? {
      var clause := " LIMIT $" + Decimal.NatToString(|args| + 1);
      NextClause(query, args, built, Filter(LimitFilter, p.limit.value), clause);
      query := query + clause;
      args := args + [p.limit.value];
      built := built + [Filter(LimitFilter, p.limit.value)];
    }
    if p.offset.Some? {
      var clause := " OFFSET $" + Decimal.NatToString(|args| + 1);
      NextClause(query, args, built, Filter(OffsetFilter, p.offset.value), clause);
      query := query + clause;
      args := args + [p.offset.value];
      built := built + [Filter(OffsetFilter, p.offset.value)];
    }
    assert built == Filters(p);
  }

  /** The crop condition, joined on its own after " AND ", is the first clause. */
  lemma CropClause(conditions: seq<string>, cropId: int)
    requires conditions == ["crop_id = $" + Decimal.NatToString(1)]
    ensures BaseQuery + (" AND " + Join(conditions, " AND ")) == BaseQuery + Clauses([Filter(CropFilter, cropId)], 1)
  {
    assert " AND " + "crop_id = $" == Keyword(CropFilter);
    ClausesSingle(Filter(CropFilter, cropId), 1);
  }

  /** Appending the next filter's clause and value to the query and arguments built so far. */
  lemma NextClause(query: string, args: seq<int>, built: seq<Filter>, f: Filter, clause: string)
    requires query == BaseQuery + Clauses(built, 1) && args == Arguments(built)
    requires clause == Keyword(f.kind) + Decimal.NatToString(|args| + 1)
    ensures query + clause == BaseQuery + Clauses(built + [f], 1)
    ensures args + [f.value] == Arguments(built + [f])
  {
    ClauseStep(built, f);
    Associative(BaseQuery, Clauses(built, 1), clause);
  }

  /** One more filter adds its clause, numbered one past the filters before it, and its value. */
  lemma ClauseStep(built: seq<Filter>, f: Filter)
    ensures Clauses(built + [f], 1) == Clauses(built, 1) + (Keyword(f.kind) + Decimal.NatToString(|built| + 1))
    ensures Arguments(built + [f]) == Arguments(built) + [f.value]
  {
    ClausesAppend(built, [f], 1);
    ClausesSingle(f, |built| + 1);
    ArgumentsAppend(built, f);
  }

  lemma {:induction false} ArgumentsAppend(built: seq<Filter>, f: Filter)
    ensures Arguments(built + [f]) == Arguments(built) + [f.value]
  {
    if built == [] {
      assert built + [f] == [f];
    } else {
      assert (built + [f])[1..] == built[1..] + [f];
      ArgumentsAppend(built[1..], f);
    }
  }

  lemma ClausesSingle(f: Filter, n: nat)
    ensures Clauses([f], n) == Keyword(f.kind) + Decimal.NatToString(n)
  {
    var rest := [f][1..];
    assert rest == [];
    assert Clauses(rest, n + 1) == "";
  }

  lemma Associative(a: string, b: string, c: string)
    ensures (a + b) + c == a + (b + c)
  {
  }

  /** Appending filters appends their clauses, numbered on from the last. */
  lemma {:induction false} ClausesAppend(a: seq<Filter>, b: seq<Filter>, first: nat)
    ensures Clauses(a + b, first) == Clauses(a, first) + Clauses(b, first + |a|)
  {
    if a == [] {
      assert a + b == b;
    } else {
      assert (a + b)[1..] == a[1..] + b;
      ClausesAppend(a[1..], b, first + 1);
    }
  }

  // ----- GetAll: execution -----

  /**
   * The driver prepares the statement, which declares `declared`
   * parameters, and refuses a call passing a different number of
   * arguments before anything reaches the server.
   */
  function Query(declared: nat, passed: seq<int>, reply: QueryReply<(int, string)>): (r: QueryReply<(int, string)>)
    ensures |passed| == declared ==> r == reply
    ensures |passed| != declared ==> r == QueryFailed(ClientError)
  {
    if |passed| != declared then QueryFailed(ClientError) else reply
  }

  /** The row a scanned `(id, name)` becomes: the other columns keep their zero values. */
  function CategoryOf(cols: (int, string)): RepoCategory {
    RepoCategory(cols.0, RepoCategoryInfo(cols.1, None, None), ZeroTime, ZeroTime)
  }

  /**
   * What the scan loop yields for a reply: the query's own failure, or the
   * first row that fails to scan, or every row. An error that ends the
   * iteration early is never consulted, so the rows read so far pass for
   * the whole table.
   */
  predicate Outcome(reply: QueryReply<(int, string)>, categories: seq<RepoCategory>, err: Option<Error>) {
    match reply
    case QueryFailed(f) => categories == [] && err == Some(Wrapping(ErrInternalServerError, Db(f)))
    case Delivered(rows, _) =>
      if AllScanned(rows) then
        err.None? && |categories| == |rows| &&
        forall i :: 0 <= i < |rows| ==> categories[i] == CategoryOf(rows[i].value)
      else
        categories == [] && err == Some(Wrapping(ErrInternalServerError, Db(FirstFailure(rows))))
  }

  /** `for rows.Next() { rows.Scan(&cat.ID, &cat.Name) ... }`. */
  method Collect(reply: QueryReply<(int, string)>) returns (categories: seq<RepoCategory>, err: Option<Error>)
    ensures Outcome(reply, categories, err)
  {
    if reply.QueryFailed? {
      return [], Some(Wrapping(ErrInternalServerError, Db(reply.failure)));
    }
    var rows := reply.rows;
    categories := [];
    var i := 0;
    while i < |rows|
      invariant 0 <= i <= |rows|
      invariant AllScanned(rows[..i])
      invariant |categories| == i
      invariant forall k :: 0 <= k < i ==> categories[k] == CategoryOf(rows[k].value)
    {
      if rows[i].ScanFailed? {
        FirstFailureAt(rows, i);
        return [], Some(Wrapping(ErrInternalServerError, Db(rows[i].failure)));
      }
      assert rows[..i + 1] == rows[..i] + [rows[i]];
      categories := categories + [CategoryOf(rows[i].value)];
      i := i + 1;
    }
    assert rows[..i] == rows;
    err := None;
  }

  /**
   * GetAll as written: the arguments are built but `Query` is called with
   * the query text alone, so any filter makes the driver refuse the call.
   */
  method GetAll(p: RepoCategoryGetAllParams, reply: QueryReply<(int, string)>)
    returns (categories: seq<RepoCategory>, err: Option<Error>)
    ensures |Filters(p)| > 0 ==> categories == [] && err == Some(Wrapping(ErrInternalServerError, Db(ClientError)))
    ensures |Filters(p)| == 0 ==> Outcome(reply, categories, err)
  {
    var query, args := BuildGetAllQuery(p);
    var result := Query(|args|, [], reply);
    categories, err := Collect(result);
  }

  /** GetAll with the arguments passed along: every filter reaches the server. */
  method GetAllWithArgs(p: RepoCategoryGetAllParams, reply: QueryReply<(int, string)>)
    returns (categories: seq<RepoCategory>, err: Option<Error>)
    ensures Outcome(reply, categories, err)
  {
    var query, args := BuildGetAllQuery(p);
    var result := Query(|args|, args, reply);
    categories, err := Collect(result);
  }

  /** Without filters the query is the base text and there is no argument. */
  lemma NoFilters(p: RepoCategoryGetAllParams)
    requires p.cropId.None? && p.limit.None? && p.offset.None?
    ensures BaseQuery + Clauses(Filters(p), 1) == BaseQuery && Arguments(Filters(p)) == []
  {
  }

  /** One argument per filter present. */
  lemma {:induction false} ArgumentCount(p: RepoCategoryGetAllParams)
    ensures |Arguments(Filters(p))| == (if p.cropId.Some? then 1 else 0) + (if p.limit.Some? then 1 else 0) + (if p.offset.Some? then 1 else 0)
  {
  }

  /** The crop filter alone: `... WHERE true\n\t AND crop_id = $1` with the crop id as `$1`. */
  lemma CropFilterQuery(cropId: int)
    ensures var p := RepoCategoryGetAllParams(Some(cropId), None, None);
      BaseQuery + Clauses(Filters(p), 1) == BaseQuery + " AND crop_id = $1" && Arguments(Filters(p)) == [cropId]
  {
    var p := RepoCategoryGetAllParams(Some(cropId), None, None);
    assert Filters(p) == [Filter(CropFilter, cropId)];
    assert Decimal.NatToString(1) == "1";
  }

  /** As written, a request filtered by crop is refused whatever the table holds. */
  lemma CropFilterRefused(cropId: int, reply: QueryReply<(int, string)>)
    ensures var p := RepoCategoryGetAllParams(Some(cropId), None, None);
      Query(|Arguments(Filters(p))|, [], reply) == QueryFailed(ClientError)
  {
    CropFilterQuery(cropId);
  }
}
