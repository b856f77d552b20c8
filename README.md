# article-service in Dafny

A model of the core of `article-service`, a Go HTTP back-end for an
agricultural knowledge base. Articles belong to a crop and a category. Each
article carries a list of image URLs. Categories are linked to crops.
Statuses are stored labels. Users live in a remote authentication service.

The model covers these layers of the service:

- **Repositories (PostgreSQL).** The tables are `seq` fields of one class,
  `Db.Database`, which also holds the serial counters of the tables that
  draw ids. Each repository method that writes is a `method` that changes
  only the table it writes (its `modifies` clause names that field). It
  states the new table in terms of the old one. Reads are functions of the
  table. Whether a statement fails, and with which PostgreSQL code, is a
  parameter (`fault`). A unique violation is code 23505 and a foreign-key
  violation is 23503.
- **Query results.** These come in as a `Rows.QueryReply`: the query either
  fails, or delivers rows, each of which scans or fails to scan. The loops
  over them are `method`s with invariants. The crop and category
  repositories never consult the error that ends an iteration early. The
  model keeps that: a delivered reply's trailing iteration error is
  ignored, and the rows read so far are returned as a success.
- **Errors.** A Go error is `Errors.Error(wraps, cause)`. `wraps` is the set
  of package sentinels the error matches with `errors.Is`. `cause` is the
  underlying failure. `fmt.Errorf("%w: %w", ...)` wraps both; a plain
  sentinel return has no cause; an error passed on unchanged has no
  sentinel.
- **Transactions.** A service method that runs inside
  `txManager.ReadCommitted` takes a snapshot of the tables. It restores the
  snapshot on every failure, including a failed commit. Only the
  repositories built on the shared `db.Client` take part in that
  transaction. The article repository inserts through its own
  `pgxpool.Pool`, so a rollback of article creation does not undo the
  article row (see "## Findings"). The serial counters are never rolled
  back, as PostgreSQL sequences are not.
- **Services.** Each service maps repository errors to its own sentinels.
- **HTTP handlers.** The two `GetAll` handlers and the category `Create`
  handler parse query parameters with `strconv.Atoi` (modelled in `Decimal`:
  optional sign, decimal digits, 64-bit range). They map parse and service
  errors to status codes.
- **Remote calls.** The gRPC access client and the user service record the
  calls they make on a `Clients.Remote` object. The remote answers are
  parameters.
- **Small libraries.** The model also covers the converters between domain
  and repository models, and the request helpers (`IsStructEmpty`,
  `GetAuthToken`).

## Model

| member | source | states |
|---|---|---|
| Decimal.NatToString | internal/repository/category/repository.go:69-83 | the decimal text of a natural is non-empty, all digits, and has no leading zero |
| Decimal.Atoi | internal/api/http/category/getAll.go:41-44 | a successful parse is a non-empty text and yields a value within the 64-bit range |
| Decimal.AtoiOfNatToString | internal/api/http/category/getAll.go:41-45 | parsing the decimal text of any natural up to the 64-bit maximum gives that natural back |
| Decimal.AtoiOfFormatInt | internal/api/http/category/getAll.go:41-45 | parsing the formatted text of any 64-bit integer, negative ones included, gives that integer back |
| Decimal.DigitsValueOfNatToString | internal/api/http/category/getAll.go:41-45 | the digits written for a natural have that natural as their value |
| Decimal.FormatInt | internal/api/http/category/getAll.go:41-45 | an integer's text is digits, preceded by a minus sign exactly when it is negative |
| Rows.FirstFailure | internal/repository/crop/repository.go:69-80 | the error reported for a scan loop is that of a row that failed to scan, with every earlier row scanned |
| Rows.FirstFailureAt | internal/repository/crop/repository.go:69-80 | when row i is the first that fails to scan, its failure is the one the loop reports |
| Access.ToUint32 | internal/clients/auth-service/grpc/access.go:64-81 | the level sent is the Go `int` converted to `uint32`: below 2^32, congruent to the level, and equal to it in range |
| Access.Check | internal/clients/auth-service/grpc/access.go:64-81 | records one Check call with the bearer-token metadata and the level; fails exactly when the remote does, carrying its error without a sentinel |
| Access.LevelsSentUnchanged | internal/clients/auth-service/grpc/access.go:17-22 | every named access level survives the `uint32` conversion unchanged |
| Access.MetadataRoundTrip | internal/clients/auth-service/grpc/access.go:64-81 | the metadata holds one "authorization" entry, from which `GetAuthToken` recovers the token |
| Request.IsStructEmpty | internal/lib/api/request/request.go:10-34 | errors exactly when the dereferenced value is not a struct; otherwise reports empty exactly when every field is its zero value |
| Request.Split | internal/lib/api/request/request.go:42-45 | splitting on spaces gives at least one piece |
| Request.SplitJoin | internal/lib/api/request/request.go:42-45 | the pieces of a header rejoined with spaces are the header, and no piece contains a space |
| Request.SplitAfterPiece | internal/lib/api/request/request.go:42-47 | a space-free first piece followed by a space splits off as the first element |
| Request.SplitSpaceFree | internal/lib/api/request/request.go:42-47 | a space-free text splits into itself alone |
| Request.GetAuthToken | internal/lib/api/request/request.go:36-49 | a token is returned only from a header that is exactly "Bearer " plus a space-free token; an empty header and any other header give their two distinct errors |
| Request.GetAuthTokenRoundTrip | internal/lib/api/request/request.go:36-49 | any space-free token put behind "Bearer " is recovered |
| Converter.ArticleRoundTrip | internal/domain/converter/article.go:8-26 | an article body converted to the repository model and back, with its images, is the same article |
| Converter.RepoArticleBodyForgetsOnlyImages | internal/domain/converter/article.go:20-26 | two bodies convert alike exactly when they differ at most in their images |
| Converter.RepoArticleParamsForgetOnlyStatus | internal/domain/converter/article.go:28-35 | two list filters convert alike exactly when they differ at most in status |
| Converter.RepoArticleUpdateForgetsOnlyImages | internal/domain/converter/article.go:37-43 | two update inputs convert alike exactly when they differ at most in their images |
| Converter.CategoryRoundTrip | internal/domain/converter/category.go:8-24 | a category stored from its info reads back with the same id, name and description; icon and status are lost, so the info survives exactly when it had neither |
| Converter.CategoryIconCopied | internal/domain/converter/category.go:8-17 | the domain category keeps name, description and icon, and drops both timestamps |
| Converter.RepoCategoryParamsForgetOnlyStatus | internal/domain/converter/category.go:26-32 | two list filters convert alike exactly when they differ at most in status |
| Converter.RepoCategoryUpdateForgetsOnlyStatus | internal/domain/converter/category.go:34-40 | two update inputs convert alike exactly when they differ at most in status |
| Converter.CropInfoRoundTrip | internal/domain/converter/crop.go:17-32 | crop info converted to the repository model with a status and back is unchanged, and the status is the one given |
| Converter.CropRoundTrip | internal/domain/converter/crop.go:8-32 | a crop built from converted info converts back to the same crop |
| Converter.RepoCropUpdateKeepsFields | internal/domain/converter/crop.go:34-40 | the update conversion sets no status and is injective |
| Converter.ProtoStringRoundTrip | internal/domain/converter/proto.go:5-18 | optional string and protobuf `StringValue` convert into each other losslessly in both directions |
| ArticleImagesRepo.ImagesOf | internal/repository/article_images/repository.go:55-77 | the images listed for an article are exactly those of its rows |
| ArticleImagesRepo.WithoutArticle | internal/repository/article_images/repository.go:79-99 | the rows kept are exactly those of other articles |
| ArticleImagesRepo.RowsFor | internal/repository/article_images/repository.go:34-40 | one row per image |
| ArticleImagesRepo.BuildValues | internal/repository/article_images/repository.go:34-40 | the bulk insert holds one row per image, in order, each with the article id |
| ArticleImagesRepo.Failure | internal/repository/article_images/repository.go:48-50 | a statement error is passed on without a sentinel |
| ArticleImagesRepo.CreateBulk | internal/repository/article_images/repository.go:28-53 | no images is a build error; otherwise succeeds exactly when the insert does, appending one row per image, and a failure leaves the table alone |
| ArticleImagesRepo.GetAll | internal/repository/article_images/repository.go:55-77 | succeeds exactly when the query does, listing exactly the article's images |
| ArticleImagesRepo.DeleteBulk | internal/repository/article_images/repository.go:79-99 | succeeds exactly when the statement does, removing exactly the article's rows |
| ArticleImagesRepo.ImagesOfAppend | internal/repository/article_images/repository.go:55-77 | the images of two row runs put together are the images of each, in order |
| ArticleImagesRepo.ImagesOfRowsFor | internal/repository/article_images/repository.go:28-77 | the rows inserted for an article list back exactly its images, and none for any other article |
| ArticleImagesRepo.CreateBulkThenGetAll | internal/repository/article_images/repository.go:28-77 | after a bulk insert the article lists its earlier images followed by the new ones; other articles are unaffected |
| ArticleImagesRepo.DeleteBulkThenGetAll | internal/repository/article_images/repository.go:55-99 | after a bulk delete the article lists no image; other articles are unaffected |
| ArticleImagesRepo.ReplaceImages | internal/repository/article_images/repository.go:28-99 | delete then insert leaves the article with exactly the new images |
| ArticleRelationsRepo.CreateError | internal/repository/article_relations/repository.go:46-58 | a unique violation matches "already exists", a foreign-key violation "invalid arguments", any other failure no sentinel; the cause is always kept |
| ArticleRelationsRepo.Create | internal/repository/article_relations/repository.go:30-61 | succeeds exactly when the insert does, appending the relation; a failure leaves the table alone |
| ArticleRepo.CreateError | internal/repository/article/repository.go:43-55 | every failure wraps exactly one sentinel plus the cause: "already exists" for a unique violation, "invalid arguments" for a foreign-key violation, "internal" otherwise |
| ArticleRepo.Create | internal/repository/article/repository.go:31-58 | succeeds exactly when the insert does, appending the row under the next serial id; a failure returns 0 and leaves the table alone, and one the server rejected with a code has used up a serial id |
| CropCategoriesRepo.WithoutLink | internal/repository/crop_categories/repository.go:52-75 | the rows kept are exactly those other than the link |
| CropCategoriesRepo.Create | internal/repository/crop_categories/repository.go:29-50 | succeeds exactly when the insert does, appending the link; a failure is passed on without a sentinel |
| CropCategoriesRepo.Delete | internal/repository/crop_categories/repository.go:52-75 | succeeds exactly when the statement does, removing every copy of the link |
| CropCategoriesRepo.DeleteAbsentLink | internal/repository/crop_categories/repository.go:52-75 | deleting a link that is not there changes nothing |
| CropCategoriesRepo.DeleteTwice | internal/repository/crop_categories/repository.go:52-75 | delete is idempotent |
| CropCategoriesRepo.DeleteUndoesCreate | internal/repository/crop_categories/repository.go:29-75 | create followed by delete of the same link equals the delete alone |
| StatusRepo.Create | internal/repository/status/repository.go:22-45 | succeeds exactly when the insert does, appending the status under the next serial id; a failure leaves the table alone, and one the server rejected has used up a serial id; keeps every stored id below the counter |
| StatusRepo.GetAll | internal/repository/status/repository.go:47-68 | succeeds exactly when the query does, returning every stored status |
| StatusRepo.WithLabel | internal/repository/status/repository.go:70-92 | the matches are exactly the stored statuses with that label |
| StatusRepo.WithId | internal/repository/status/repository.go:94-116 | the matches are exactly the stored statuses with that id |
| StatusRepo.ScanOne | internal/repository/status/repository.go:86-89 | a single-row scan succeeds exactly when one row matches, and otherwise reports the row count |
| StatusRepo.GetByStatus | internal/repository/status/repository.go:70-92 | succeeds exactly when the query does and one row carries the label, returning that row |
| StatusRepo.GetById | internal/repository/status/repository.go:94-116 | succeeds exactly when the query does and one row carries the id, returning that row |
| StatusRepo.UniqueLabelMatchesOnce | internal/repository/status/repository.go:70-92 | with unique labels a label matches one row if stored and none otherwise |
| StatusRepo.GetByStatusFindsStoredLabel | internal/repository/status/repository.go:70-92 | with unique labels every stored status is found by its label |
| StatusRepo.NoIdAtOrAbove | internal/repository/status/repository.go:94-116 | no row matches an id at or above the counter |
| StatusRepo.CreatedStatusReadsBack | internal/repository/status/repository.go:22-45 | a status inserted under the next id is found by that id |
| StatusRepo.WithIdAppend | internal/repository/status/repository.go:94-116 | matching by id distributes over appended rows |
| CategoryRepo.CreateError | internal/repository/category/repository.go:41-53 | every failure is one bare sentinel: "already exists", "invalid arguments" or "internal", by PostgreSQL code |
| CategoryRepo.Create | internal/repository/category/repository.go:33-56 | succeeds exactly when the insert does, appending the row under the next serial id; a failure leaves the table alone, and one the server rejected with a code has used up a serial id |
| CategoryRepo.FiltersInOrder | internal/repository/category/repository.go:65-85 | the filters applied are crop, limit, offset, in that order, each exactly when its parameter is set |
| CategoryRepo.Arguments | internal/repository/category/repository.go:65-85 | one argument per filter |
| CategoryRepo.ArgumentsValues | internal/repository/category/repository.go:65-85 | argument i is the value of filter i |
| CategoryRepo.BuildGetAllQuery | internal/repository/category/repository.go:59-85 | the query built is the base query plus one clause per filter, each placeholder numbered by its argument's position, and the arguments are the filter values in that order |
| CategoryRepo.ClausesAppend | internal/repository/category/repository.go:65-85 | the clauses of two filter runs are those of each, the second numbered after the first |
| CategoryRepo.NoFilters | internal/repository/category/repository.go:59-85 | without parameters the query is the base query and has no arguments |
| CategoryRepo.ArgumentCount | internal/repository/category/repository.go:65-85 | the argument count is the number of parameters set |
| CategoryRepo.Query | internal/repository/category/repository.go:87-90 | the driver runs the query only when the arguments passed match the placeholders, and refuses it otherwise |
| CategoryRepo.Collect | internal/repository/category/repository.go:87-102 | a failed query or row scan gives no categories and "internal" wrapping the failure; otherwise every row becomes a category, in order |
| CategoryRepo.GetAll | internal/repository/category/repository.go:58-103 | as written: with any parameter set the query is refused and the call fails as internal; with none it lists the table |
| CategoryRepo.GetAllWithArgs | internal/repository/category/repository.go:58-103 | with the arguments passed, the reply is collected whatever the parameters |
| CategoryRepo.CropFilterQuery | internal/repository/category/repository.go:68-75 | a crop filter gives the query "... WHERE true AND crop_id = $1" with one argument |
| CategoryRepo.CropFilterRefused | internal/repository/category/repository.go:87-90 | with a crop filter the as-written call fails whatever the database holds, while the corrected one does not fail on a good reply |
| CropRepo.CreateError | internal/repository/crop/repository.go:41-50 | every failure wraps one sentinel plus the cause: "already exists" for a unique violation, "internal" otherwise |
| CropRepo.Create | internal/repository/crop/repository.go:31-53 | succeeds exactly when the insert does, appending the row under the next serial id; a failure leaves the table alone, and one the server rejected with a code has used up a serial id |
| CropRepo.GetAll | internal/repository/crop/repository.go:55-83 | a failed query or row scan gives no crops and "internal" wrapping the first failure; otherwise every row becomes a crop, in order |
| ArticleService.TxError | internal/service/article/service.go:52-80 | a failure to begin or commit is passed on without a service sentinel |
| ArticleService.CreateArticleError | internal/service/article/service.go:60-67 | a failed article insert becomes "already exists" exactly when the repository said so, and "internal" otherwise |
| ArticleService.CreateSteps | internal/service/article/service.go:60-79 | runs the article, image and relation inserts in order and stops at the first failure, stating each table's new contents and the error for every outcome |
| ArticleService.Create | internal/service/article/service.go:47-83 | as written: succeeds exactly when every step does, adding the article, one row per image and the relation; a failure rolls back images and relation, but once the article insert has succeeded the article row stays, so the database is left changed; never reports "invalid arguments", and returns the id already drawn |
| ArticleService.CreateAtomic | internal/service/article/service.go:47-83 | corrected: the same outcomes and errors, but any failure leaves every table as it was |
| ArticleService.CreateAlreadyExistsOnlyOnDuplicate | internal/service/article/service.go:60-67 | only a duplicate article reports "already exists"; a foreign-key violation is internal |
| ArticleService.WithImages | internal/service/article/service.go:104-110 | an article read back has its id, title and text, and exactly its stored images |
| ArticleService.GetAll | internal/service/article/service.go:85-116 | each listed article comes back with its images, in order; a failed image read stops the loop and returns the articles assembled so far with "internal"; succeeds exactly when begin, list, every image read and commit do, and never reports "invalid arguments" |
| ArticleService.GetById | internal/service/article/service.go:118-147 | returns the article with its images exactly when begin, read and image read succeed; a failing commit still returns the article alongside the error |
| ArticleService.CreatedArticleReadsBack | internal/service/article/service.go:47-147 | the row Create stores, read back with the images it inserted, is the created article except for its Latin name, which the `articles` table does not store |
| ArticleService.Update | internal/service/article/service.go:149-182 | succeeds exactly when every step does, replacing the article's images by the new ones; any failure leaves the images as they were |
| ArticleService.UpdatedImagesReadBack | internal/service/article/service.go:149-182 | after an update the article lists exactly the new images and every other article keeps its own |
| ArticleService.Delete | internal/service/article/service.go:184-195 | fails exactly when the repository does, and then as "internal" |
| CropService.CreateError | internal/service/crop/service.go:43-52 | a failed insert becomes "already exists" exactly when the repository said so, and "internal" otherwise |
| CropService.Create | internal/service/crop/service.go:38-55 | succeeds exactly when the insert does, storing the crop's name under the new id; a failure stores nothing |
| CropService.CreateAlreadyExistsOnlyOnDuplicate | internal/service/crop/service.go:38-55 | only a unique violation reports "already exists" |
| CropService.ListedCrop | internal/service/crop/service.go:57-73 | a listed crop has its id and name, no description or image, and zero timestamps |
| CropService.GetAll | internal/service/crop/service.go:57-73 | succeeds exactly when the repository does, converting every crop in order; any failure is "internal" with no crops |
| CropService.GetById | internal/service/crop/service.go:75-86 | returns the converted crop exactly when the repository finds it, else "internal" |
| CropService.Update | internal/service/crop/service.go:88-98 | fails exactly when the repository does, and then as "internal" |
| CategoryService.Create | internal/service/category/service.go:33-45 | succeeds exactly when the insert does, storing the name under the new id; every failure, a duplicate included, is "internal" and stores nothing |
| CategoryService.List | internal/service/category/service.go:47-81 | never fails: a failed read gives an empty list, and otherwise every category is converted, in order |
| CategoryService.ListedCategory | internal/service/category/service.go:57-60 | a listed category keeps id, name and description, with empty status and no timestamps |
| StatusService.GetByStatus | internal/service/status/service.go:39-53 | returns the status exactly when the repository finds it, else "internal" |
| StatusService.StoredLabelFound | internal/service/status/service.go:39-53 | with unique labels every stored status is found by its label |
| StatusService.MissingLabelFails | internal/service/status/service.go:39-53 | a label no row carries gives "internal" |
| UserService.GetById | internal/service/user/user.go:41-52 | passes the remote's user or error through unchanged |
| UserService.Update | internal/service/user/user.go:54-79 | checks moderator access exactly when the caller is not the user or the role changes; updates exactly when permitted; otherwise "access denied", and a failed update is "internal" |
| Http.OptionalInt | internal/api/http/category/getAll.go:39-46 | an absent or empty parameter is no value, a parsable one its value, anything else the given message |
| Http.OptionalIntRoundTrip | internal/api/http/category/getAll.go:39-46 | an optional 64-bit value written into the query is parsed back |
| CategoryHttp.GetAllQueryParams | internal/api/http/category/getAll.go:36-67 | succeeds exactly when crop_id, limit and offset all parse; the first that does not names the error |
| CategoryHttp.GetAllQueryRoundTrip | internal/api/http/category/getAll.go:36-67 | any filter written as a query parses back |
| CategoryHttp.GetAllHandler | internal/api/http/category/getAll.go:16-34 | a bad parameter is 400 with its message; otherwise 200 with every listed category converted, in order (an empty list when the read failed); never 500 |
| CategoryHttp.CreateParams | internal/api/http/category/create.go:59-73 | succeeds exactly when crop_id is absent or parses |
| CategoryHttp.CreateHandler | internal/api/http/category/create.go:23-57 | 400 for a bad crop_id, body or name; otherwise 201 with the new id or 500; the table changes only on 201, and the "already exists" branch is unreachable |
| ArticleHttp.GetAllQueryParams | internal/api/http/article/getAll.go:42-69 | succeeds exactly when crop_id and category_id parse; status is taken verbatim when present |
| ArticleHttp.GetAllQueryRoundTrip | internal/api/http/article/getAll.go:42-69 | any filter written as a query parses back |
| ArticleHttp.GetAllHandler | internal/api/http/article/getAll.go:17-40 | a bad parameter is 400 with its message; for a good one, 200 exactly when begin, list, every image read and commit succeed, carrying every listed article with its images, and 500 otherwise (the "invalid arguments" 400 is unreachable) |

## Left out

- The transaction manager's internals, isolation levels and concurrency: a transaction is a snapshot restored on failure.
- Logging, contexts, timeouts and gRPC retry options.
- Timestamps: the database's defaults are not modelled, so a listed crop has zero timestamps, as the scan leaves them.
- JSON encoding and decoding, and the validator library: the decoded body is an `Option` and validation is the `name` requirement of the category request.
- Repository methods the source does not implement, or that panic, such as article `GetById`. Their answers are parameters of the service methods that call them (`listed`, `found`, `update`, `deleted`).
- ArticleService.Update: the effect of the article repository's column update on `articles` is not modelled, only its success or failure, because that repository method is not implemented.
- `UserService.Delete` panics in the source and is not modelled.
- The article repository's `Create` takes crop and category ids that the service's call does not pass. The model follows the repository's signature and stores both.
- The category service's `Create` and `GetAll` are called by the handlers with arguments their signatures do not take. The model calls them with what they do take; the list filter is not passed to the service.
- The domain `CategoryGetAllParams` has no `Limit` or `Offset` field, though the list handler sets both; the model gives it both.
- `ToRepoCropInfo` takes a status that the crop service does not pass; the model passes 0.
- Ids drawn by an insert that then fails are not rolled back with the tables, as with PostgreSQL sequences.
- ArticleRepo.Create, CropRepo.Create, CategoryRepo.Create, StatusRepo.Create: a failure on the client side (no PostgreSQL code) is taken to have drawn no serial id, though a statement that reached the server before the connection failed may have drawn one.
- ArticleService.CreatedArticleReadsBack: the article repository's `GetById` is not implemented, so the lemma assumes it returns the stored row, with the Latin name read back empty.
- ArticleService.CreateAtomic: the relations repository is built on `internal/client/db`, which is not part of this model, so whether its insert joins the transaction cannot be read from the source; both Create members take it to.
- CategoryRepo.Collect and CropRepo.GetAll: the error that ends a row iteration is not consulted, as in the source, so a truncated result counts as a success.

## Findings

| source | as written | input that shows it | evidently intended | confidence | as-written member | corrected member |
|---|---|---|---|---|---|---|
| internal/repository/category/repository.go:87 | the query is run without the arguments built for its placeholders | `GetAll` with `CropId` set: the query has `$1` but no argument is passed, so the driver refuses it and the call fails as internal | pass `args...` to `Query` | not executed | CategoryRepo.GetAll | CategoryRepo.GetAllWithArgs |
| internal/repository/article/repository.go:41-43 | the article insert goes through the repository's own `pgxpool.Pool`, not through the transaction `ReadCommitted` keeps in the context, so a rollback does not undo it | `Create` with one image whose insert fails: the service returns "internal", yet the article row stays in `articles` with no images and no relation | the article insert takes part in the transaction, so a failed Create changes nothing | not executed | ArticleService.Create | ArticleService.CreateAtomic |
