/**
 * The article service: creation, listing, reading and updating run inside
 * one read-committed transaction each, and every repository failure inside
 * one becomes the service's own sentinel, except that a duplicate article
 * stays distinguishable as "already exists". Delete runs outside any
 * transaction.
 */
module ArticleService {
  import opened Wrappers
  import opened Errors
  import opened Model
  import opened Db
  import opened Converter
  import ArticleRepo
  import ArticleImagesRepo
  import ArticleRelationsRepo

  const ErrAlreadyExists := Sentinel(Layer.ArticleService, Kind.AlreadyExists)
  const ErrInvalidArguments := Sentinel(Layer.ArticleService, Kind.InvalidArguments)
  const ErrInternalServerError := Sentinel(Layer.ArticleService, Kind.InternalServerError)

  /** How the transaction manager's own steps go: starting the transaction, and committing it. */
  datatype TxFaults = TxFaults(begin: Option<DbFailure>, commit: Option<DbFailure>)

  /** The error the transaction manager returns when it cannot begin or commit: no sentinel of the service. */
  function TxError(f: DbFailure): (e: Error)
    ensures e.wraps == {} && e.cause == Some(Db(f))
  {
    CauseOnly(Db(f))
  }

  // ----- Create -----

  datatype CreateFaults = CreateFaults(
    tx: TxFaults, article: Option<DbFailure>, images: Option<DbFailure>, relation: Option<DbFailure>)

  /** What a failed article insert becomes: "already exists" survives, everything else is internal. */
  function CreateArticleError(e: Error): (s: Error)
    ensures s == Bare(ErrAlreadyExists) || s == Bare(ErrInternalServerError)
    ensures Is(s, ErrAlreadyExists) <==> Is(e, ArticleRepo.ErrAlreadyExists)
  {
    if Is(e, ArticleRepo.ErrAlreadyExists) then Bare(ErrAlreadyExists) else Bare(ErrInternalServerError)
  }

  /** Every step of Create succeeds. */
  predicate CreateSucceeds(body: ArticleBody, faults: CreateFaults) {
    faults.tx.begin.None? && faults.article.None? && (|body.images| == 0 || faults.images.None?) &&
    faults.relation.None? && faults.tx.commit.None?
  }

  /**
   * The inserts Create runs inside its transaction: the article, then its
   * images (when there are any), then its crop/category relation, stopping
   * at the first failure.
   */
  method CreateSteps(db: Database, cropId: int, categoryId: int, body: ArticleBody, faults: CreateFaults)
    returns (articleId: int, err: Option<Error>)
    modifies db`articles, db`articleImages, db`articleRelations, db`articleSeq
    ensures faults.article.Some? ==>
      articleId == 0 && err == Some(CreateArticleError(ArticleRepo.CreateError(faults.article.value))) &&
      db.articles == old(db.articles) && db.articleSeq == old(db.articleSeq) + SerialsDrawn(faults.article.value)
    ensures faults.article.None? ==>
      articleId == old(db.articleSeq) && db.articleSeq == articleId + 1 &&
      db.articles == old(db.articles) + [ArticleRow(articleId, cropId, categoryId, body.title, body.text)]
    ensures faults.article.None? && |body.images| > 0 && faults.images.Some? ==>
      err == Some(Bare(ErrInternalServerError))
    ensures faults.article.None? && (|body.images| == 0 || faults.images.None?) ==>
      err == if faults.relation.Some? then Some(Bare(ErrInternalServerError)) else None
    ensures err.None? ==>
      db.articleImages == old(db.articleImages) + ArticleImagesRepo.RowsFor(articleId, body.images) &&
      db.articleRelations == old(db.articleRelations) + [ArticleRelationRow(cropId, categoryId, articleId)]
  {
    var e: Option<Error>;
    articleId, e := ArticleRepo.Create(db, cropId, categoryId, ToRepoArticleBody(body), faults.article);
    if e.Some? {
      return articleId, Some(CreateArticleError(e.value));
    }
    if |body.images| > 0 {
      e := ArticleImagesRepo.CreateBulk(db, articleId, body.images, faults.images);
      if e.Some? {
        return articleId, Some(Bare(ErrInternalServerError));
      }
    } else {
      assert ArticleImagesRepo.RowsFor(articleId, body.images) == [];
      assert db.articleImages == db.articleImages + [];
    }
    e := ArticleRelationsRepo.Create(db, cropId, categoryId, articleId, faults.relation);
    if e.Some? {
      return articleId, Some(Bare(ErrInternalServerError));
    }
    err := None;
  }

  /**
   * Create as written. The article repository inserts through its own
   * connection pool, not through the transaction the service opens, so a
   * rollback undoes the images and the relation but not the article row:
   * once the article insert has succeeded, a later failure leaves that row
   * behind, and the id it drew is returned alongside the error.
   */
  method Create(db: Database, cropId: int, categoryId: int, body: ArticleBody, faults: CreateFaults)
    returns (articleId: int, err: Option<Error>)
    modifies db`articles, db`articleImages, db`articleRelations, db`cropsCategories,
             db`entityStatus, db`crops, db`categories, db`articleSeq
    ensures err.None? <==> CreateSucceeds(body, faults)
    ensures err.None? ==>
      db.articleImages == old(db.articleImages) + ArticleImagesRepo.RowsFor(articleId, body.images) &&
      db.articleRelations == old(db.articleRelations) + [ArticleRelationRow(cropId, categoryId, articleId)] &&
      db.cropsCategories == old(db.cropsCategories) && db.entityStatus == old(db.entityStatus) &&
      db.crops == old(db.crops) && db.categories == old(db.categories)
    ensures err.Some? ==> db.Contents() == old(db.Contents()).(articles := db.articles)
    ensures faults.tx.begin.Some? ==>
      articleId == 0 && err == Some(TxError(faults.tx.begin.value)) &&
      db.articles == old(db.articles) && db.articleSeq == old(db.articleSeq)
    ensures faults.tx.begin.None? && faults.article.Some? ==>
      articleId == 0 && err == Some(CreateArticleError(ArticleRepo.CreateError(faults.article.value))) &&
      db.articles == old(db.articles) && db.articleSeq == old(db.articleSeq) + SerialsDrawn(faults.article.value)
    ensures faults.tx.begin.None? && faults.article.None? ==>
      articleId == old(db.articleSeq) && db.articleSeq == old(db.articleSeq) + 1 &&
      db.articles == old(db.articles) + [ArticleRow(articleId, cropId, categoryId, body.title, body.text)]
    ensures faults.tx.begin.None? && faults.article.None? && |body.images| > 0 && faults.images.Some? ==>
      err == Some(Bare(ErrInternalServerError))
    ensures faults.tx.begin.None? && faults.article.None? && (|body.images| == 0 || faults.images.None?) ==>
      err == if faults.relation.Some? then Some(Bare(ErrInternalServerError))
             else if faults.tx.commit.Some? then Some(TxError(faults.tx.commit.value))
             else None
    ensures err.Some? && faults.tx.begin.None? && faults.article.None? ==> db.Contents() != old(db.Contents())
    ensures err.Some? ==> !Is(err.value, ErrInvalidArguments)
  {
    if faults.tx.begin.Some? {
      return 0, Some(TxError(faults.tx.begin.value));
    }
    var snapshot := db.Contents();
    articleId, err := CreateSteps(db, cropId, categoryId, body, faults);
    if err.None? && faults.tx.commit.Some? {
      err := Some(TxError(faults.tx.commit.value));
    }
    if err.Some? {
      db.Restore(snapshot.(articles := db.articles));
    }
    if err.Some? && faults.article.None? {
      assert |db.Contents().articles| == |old(db.articles)| + 1;
    }
  }

  /**
   * Create as evidently intended: the article insert joins the transaction
   * like the other two, so any failure leaves every table as it was.
   */
  method CreateAtomic(db: Database, cropId: int, categoryId: int, body: ArticleBody, faults: CreateFaults)
    returns (articleId: int, err: Option<Error>)
    modifies db`articles, db`articleImages, db`articleRelations, db`cropsCategories,
             db`entityStatus, db`crops, db`categories, db`articleSeq
    ensures err.None? <==> CreateSucceeds(body, faults)
    ensures err.None? ==>
      articleId == old(db.articleSeq) &&
      db.articles == old(db.articles) + [ArticleRow(articleId, cropId, categoryId, body.title, body.text)] &&
      db.articleImages == old(db.articleImages) + ArticleImagesRepo.RowsFor(articleId, body.images) &&
      db.articleRelations == old(db.articleRelations) + [ArticleRelationRow(cropId, categoryId, articleId)] &&
      db.cropsCategories == old(db.cropsCategories) && db.entityStatus == old(db.entityStatus) &&
      db.crops == old(db.crops) && db.categories == old(db.categories)
    ensures err.Some? ==> db.Contents() == old(db.Contents())
    ensures faults.tx.begin.Some? ==> articleId == 0 && err == Some(TxError(faults.tx.begin.value))
    ensures faults.tx.begin.None? && faults.article.Some? ==>
      articleId == 0 && err == Some(CreateArticleError(ArticleRepo.CreateError(faults.article.value))) &&
      db.articleSeq == old(db.articleSeq) + SerialsDrawn(faults.article.value)
    ensures faults.tx.begin.None? && faults.article.None? ==>
      articleId == old(db.articleSeq) && db.articleSeq == old(db.articleSeq) + 1
    ensures faults.tx.begin.None? && faults.article.None? && |body.images| > 0 && faults.images.Some? ==>
      err == Some(Bare(ErrInternalServerError))
    ensures faults.tx.begin.None? && faults.article.None? && (|body.images| == 0 || faults.images.None?) ==>
      err == if faults.relation.Some? then Some(Bare(ErrInternalServerError))
             else if faults.tx.commit.Some? then Some(TxError(faults.tx.commit.value))
             else None
    ensures err.Some? ==> !Is(err.value, ErrInvalidArguments)
  {
    if faults.tx.begin.Some? {
      return 0, Some(TxError(faults.tx.begin.value));
    }
    var snapshot := db.Contents();
    articleId, err := CreateSteps(db, cropId, categoryId, body, faults);
    if err.None? && faults.tx.commit.Some? {
      err := Some(TxError(faults.tx.commit.value));
    }
    if err.Some? {
      db.Restore(snapshot);
    }
  }

  /** A duplicate article is the only failure of Create that says "already exists". */
  lemma CreateAlreadyExistsOnlyOnDuplicate(f: DbFailure)
    ensures Is(CreateArticleError(ArticleRepo.CreateError(f)), ErrAlreadyExists) <==> f == PgError(UniqueViolation)
    ensures f == PgError(ForeignKeyViolation) ==> CreateArticleError(ArticleRepo.CreateError(f)) == Bare(ErrInternalServerError)
  {
  }

  // ----- GetAll -----

  /** The fault of the image read for the `i`-th listed article; reads past the end of `faults` succeed. */
  function FaultAt(faults: seq<Option<DbFailure>>, i: nat): Option<DbFailure> {
    if i < |faults| then faults[i] else None
  }

  /** A listed article with the images the table holds for it. */
  function WithImages(a: RepoArticle, images: seq<ImageRow>): (r: Article)
    ensures r.id == a.id && r.body.title == a.body.title && r.body.text == a.body.text
    ensures forall img :: img in r.body.images <==> ImageRow(a.id, img) in images
  {
    ToArticle(a, ArticleImagesRepo.ImagesOf(images, a.id))
  }

  /**
   * Lists articles (`listed` is what the article repository answers for
   * `ToRepoArticleGetAllParams(params)`) and reads each one's images. A
   * failing image read ends the loop: the articles assembled so far are
   * returned together with the error.
   */
  method GetAll(db: Database, tx: TxFaults, listed: Result<seq<RepoArticle>, Error>, imageFaults: seq<Option<DbFailure>>)
    returns (articles: seq<Article>, err: Option<Error>)
    ensures tx.begin.Some? ==> articles == [] && err == Some(TxError(tx.begin.value))
    ensures tx.begin.None? && listed.Err? ==> articles == [] && err == Some(Bare(ErrInternalServerError))
    ensures tx.begin.None? && listed.Ok? ==>
      |articles| <= |listed.value| &&
      (forall i :: 0 <= i < |articles| ==>
        articles[i] == WithImages(listed.value[i], db.articleImages) && FaultAt(imageFaults, i).None?)
    ensures tx.begin.None? && listed.Ok? && |articles| < |listed.value| ==>
      FaultAt(imageFaults, |articles|).Some? && err == Some(Bare(ErrInternalServerError))
    ensures tx.begin.None? && listed.Ok? && |articles| == |listed.value| ==>
      err == if tx.commit.Some? then Some(TxError(tx.commit.value)) else None
    ensures err.None? <==>
      tx.begin.None? && listed.Ok? && tx.commit.None? &&
      forall i :: 0 <= i < |listed.value| ==> FaultAt(imageFaults, i).None?
    ensures err.Some? ==> !Is(err.value, ErrInvalidArguments)
  {
    if tx.begin.Some? {
      return [], Some(TxError(tx.begin.value));
    }
    if listed.Err? {
      return [], Some(Bare(ErrInternalServerError));
    }
    var repoArticles := listed.value;
    articles := [];
    var i := 0;
    while i < |repoArticles|
      invariant 0 <= i <= |repoArticles| && |articles| == i
      invariant forall k :: 0 <= k < i ==>
        articles[k] == WithImages(repoArticles[k], db.articleImages) && FaultAt(imageFaults, k).None?
    {
      var imgs := ArticleImagesRepo.GetAll(db.articleImages, repoArticles[i].id, FaultAt(imageFaults, i));
      if imgs.Err? {
        return articles, Some(Bare(ErrInternalServerError));
      }
      articles := articles + [ToArticle(repoArticles[i], imgs.value)];
      i := i + 1;
    }
    if tx.commit.Some? {
      return articles, Some(TxError(tx.commit.value));
    }
    err := None;
  }

  // ----- GetById -----

  /**
   * Reads one article (`found` is the article repository's answer) and its
   * images. A failing commit still hands back the article it read.
   */
  function GetById(tx: TxFaults, found: Result<RepoArticle, Error>, images: seq<ImageRow>, imageFault: Option<DbFailure>)
    : (r: (Option<Article>, Option<Error>))
    ensures tx.begin.Some? ==> r == (None, Some(TxError(tx.begin.value)))
    ensures tx.begin.None? && (found.Err? || imageFault.Some?) ==> r == (None, Some(Bare(ErrInternalServerError)))
    ensures r.1.None? <==> tx.begin.None? && found.Ok? && imageFault.None? && tx.commit.None?
    ensures r.0.Some? ==> found.Ok? && r.0.value == WithImages(found.value, images)
    ensures r.0.Some? <==> tx.begin.None? && found.Ok? && imageFault.None?
  {
    if tx.begin.Some? then (None, Some(TxError(tx.begin.value)))
    else if found.Err? then (None, Some(Bare(ErrInternalServerError)))
    else
      var imgs := ArticleImagesRepo.GetAll(images, found.value.id, imageFault);
      if imgs.Err? then (None, Some(Bare(ErrInternalServerError)))
      else
        var article := ToArticle(found.value, imgs.value);
        (Some(article), if tx.commit.Some? then Some(TxError(tx.commit.value)) else None)
  }

  /**
   * The row Create appends, read back together with the image rows it
   * inserted, is the article that was created, except for its Latin name,
   * which the `articles` table does not store; provided no image of that id
   * was stored before.
   */
  lemma CreatedArticleReadsBack(before: seq<ImageRow>, id: int, cropId: int, categoryId: int, body: ArticleBody)
    requires ArticleImagesRepo.ImagesOf(before, id) == []
    ensures GetById(TxFaults(None, None), Ok(ArticleRepo.Stored(ArticleRow(id, cropId, categoryId, body.title, body.text))),
                    before + ArticleImagesRepo.RowsFor(id, body.images), None)
         == (Some(Article(id, body.(latinName := ""))), None)
  {
    ArticleImagesRepo.CreateBulkThenGetAll(before, id, body.images, id);
    assert [] + body.images == body.images;
    ArticleRoundTrip(id, body.(latinName := ""));
  }

  // ----- Update -----

  /** `update` is the article repository's answer to the column update. */
  datatype UpdateFaults = UpdateFaults(
    tx: TxFaults, update: Option<Error>, deleteImages: Option<DbFailure>, createImages: Option<DbFailure>)

  predicate UpdateSucceeds(input: ArticleUpdateInput, faults: UpdateFaults) {
    faults.tx.begin.None? && faults.update.None? && faults.deleteImages.None? &&
    (|input.images| == 0 || faults.createImages.None?) && faults.tx.commit.None?
  }

  /**
   * Updates the article's columns, then replaces its images: all are
   * deleted, and the new ones inserted when there are any. Any failure
   * rolls the images back.
   */
  method Update(db: Database, id: int, input: ArticleUpdateInput, faults: UpdateFaults) returns (err: Option<Error>)
    modifies db`articleImages
    ensures err.None? <==> UpdateSucceeds(input, faults)
    ensures err.None? ==>
      db.articleImages == ArticleImagesRepo.WithoutArticle(old(db.articleImages), id) + ArticleImagesRepo.RowsFor(id, input.images)
    ensures err.Some? ==> db.articleImages == old(db.articleImages)
    ensures faults.tx.begin.Some? ==> err == Some(TxError(faults.tx.begin.value))
    ensures faults.tx.begin.None? && (faults.update.Some? || faults.deleteImages.Some? ||
                                      (|input.images| > 0 && faults.createImages.Some?)) ==>
      err == Some(Bare(ErrInternalServerError))
    ensures faults.tx.begin.None? && faults.update.None? && faults.deleteImages.None? &&
            (|input.images| == 0 || faults.createImages.None?) && faults.tx.commit.Some? ==>
      err == Some(TxError(faults.tx.commit.value))
  {
    if faults.tx.begin.Some? {
      return Some(TxError(faults.tx.begin.value));
    }
    var snapshot := db.articleImages;
    if faults.update.Some? {
      return Some(Bare(ErrInternalServerError));
    }
    var e := ArticleImagesRepo.DeleteBulk(db, id, faults.deleteImages);
    if e.Some? {
      db.articleImages := snapshot;
      return Some(Bare(ErrInternalServerError));
    }
    if |input.images| > 0 {
      e := ArticleImagesRepo.CreateBulk(db, id, input.images, faults.createImages);
      if e.Some? {
        db.articleImages := snapshot;
        return Some(Bare(ErrInternalServerError));
      }
    } else {
      assert ArticleImagesRepo.RowsFor(id, input.images) == [];
      assert db.articleImages == db.articleImages + [];
    }
    if faults.tx.commit.Some? {
      db.articleImages := snapshot;
      return Some(TxError(faults.tx.commit.value));
    }
    err := None;
  }

  /** After a successful Update the article has exactly the new images and every other article keeps its own. */
  lemma UpdatedImagesReadBack(before: seq<ImageRow>, id: int, images: seq<string>, other: int)
    ensures ArticleImagesRepo.ImagesOf(ArticleImagesRepo.WithoutArticle(before, id) + ArticleImagesRepo.RowsFor(id, images), other)
         == if other == id then images else ArticleImagesRepo.ImagesOf(before, other)
  {
    ArticleImagesRepo.CreateBulkThenGetAll(ArticleImagesRepo.WithoutArticle(before, id), id, images, other);
    ArticleImagesRepo.DeleteBulkThenGetAll(before, id, other);
    if other != id {
      assert ArticleImagesRepo.ImagesOf(before, other) + [] == ArticleImagesRepo.ImagesOf(before, other);
    }
  }

  // ----- Delete -----

  /** `deleted` is the article repository's answer; outside a transaction, any failure is internal. */
  function Delete(deleted: Option<Error>): (err: Option<Error>)
    ensures err.Some? <==> deleted.Some?
    ensures err.Some? ==> err.value == Bare(ErrInternalServerError) && !Is(err.value, ErrAlreadyExists)
  {
    if deleted.Some? then Some(Bare(ErrInternalServerError)) else None
  }
}
