/**
 * The `articles_images` table: one row per (article, image URL). Every
 * failure path formats the package's internal-error sentinel with `%s`,
 * so the error a caller receives wraps only the underlying cause and
 * `errors.Is` finds no sentinel in it.
 */
module ArticleImagesRepo {
  import opened Wrappers
  import opened Errors
  import opened Db

  /** The images stored for `articleId`, in table order. */
  function ImagesOf(rows: seq<ImageRow>, articleId: int): (imgs: seq<string>)
    ensures |imgs| <= |rows|
    ensures forall img :: img in imgs <==> ImageRow(articleId, img) in rows
  {
    if rows == [] then []
    else
      var rest := ImagesOf(rows[1..], articleId);
      assert forall r :: r in rows <==> r == rows[0] || r in rows[1..];
      if rows[0].articleId == articleId then [rows[0].img] + rest else rest
  }

  /** The table once every row of `articleId` is gone. */
  function WithoutArticle(rows: seq<ImageRow>, articleId: int): (kept: seq<ImageRow>)
    ensures |kept| <= |rows|
    ensures forall r :: r in kept <==> r in rows && r.articleId != articleId
  {
    if rows == [] then []
    else
      var rest := WithoutArticle(rows[1..], articleId);
      assert forall r :: r in rows <==> r == rows[0] || r in rows[1..];
      if rows[0].articleId == articleId then rest else [rows[0]] + rest
  }

  /** The VALUES rows of the bulk insert, one per image, in the given order. */
  function RowsFor(articleId: int, images: seq<string>): (rows: seq<ImageRow>)
    ensures |rows| == |images|
  {
    seq(|images|, i requires 0 <= i < |images| => ImageRow(articleId, images[i]))
  }

  /** Adds one VALUES row per image to the insert builder. */
  method BuildValues(articleId: int, images: seq<string>) returns (rows: seq<ImageRow>)
    ensures |rows| == |images|
    ensures forall i :: 0 <= i < |rows| ==> rows[i].articleId == articleId && rows[i].img == images[i]
    ensures rows == RowsFor(articleId, images)
  {
    rows := [];
    var i := 0;
    while i < |images|
      invariant 0 <= i <= |images|
      invariant |rows| == i
      invariant forall k :: 0 <= k < i ==> rows[k] == ImageRow(articleId, images[k])
    {
      rows := rows + [ImageRow(articleId, images[i])];
      i := i + 1;
    }
  }

  /** The error of a failed statement: the sentinel is only text. */
  function Failure(f: DbFailure): (e: Error)
    ensures e.wraps == {} && e.cause == Some(Db(f))
  {
    CauseOnly(Db(f))
  }

  /**
   * Inserts one row per image. With no image the builder has no VALUES
   * row and refuses to render the statement; nothing is written.
   */
  method CreateBulk(db: Database, articleId: int, images: seq<string>, fault: Option<DbFailure>)
    returns (err: Option<Error>)
    modifies db`articleImages
    ensures err.None? <==> |images| > 0 && fault.None?
    ensures |images| == 0 ==> err == Some(CauseOnly(BuildFailure))
    ensures |images| > 0 && fault.Some? ==> err == Some(Failure(fault.value))
    ensures err.None? ==> db.articleImages == old(db.articleImages) + RowsFor(articleId, images)
    ensures err.Some? ==> db.articleImages == old(db.articleImages) && err.value.wraps == {}
  {
    var rows := BuildValues(articleId, images);
    if |rows| == 0 {
      return Some(CauseOnly(BuildFailure));
    }
    if fault.Some? {
      return Some(Failure(fault.value));
    }
    db.articleImages := db.articleImages + rows;
    err := None;
  }

  /** `SELECT img FROM articles_images WHERE article_id = $1`. */
  function GetAll(rows: seq<ImageRow>, articleId: int, fault: Option<DbFailure>): (r: Result<seq<string>, Error>)
    ensures r.Ok? <==> fault.None?
    ensures r.Ok? ==> forall img :: img in r.value <==> ImageRow(articleId, img) in rows
    ensures r.Err? ==> r.error == Failure(fault.value)
  {
    if fault.Some? then Err(Failure(fault.value)) else Ok(ImagesOf(rows, articleId))
  }

  /** `DELETE FROM articles_images WHERE article_id = $1`. */
  method DeleteBulk(db: Database, articleId: int, fault: Option<DbFailure>) returns (err: Option<Error>)
    modifies db`articleImages
    ensures err.None? <==> fault.None?
    ensures err.Some? ==> err.value == Failure(fault.value) && db.articleImages == old(db.articleImages)
    ensures err.None? ==> db.articleImages == WithoutArticle(old(db.articleImages), articleId)
  {
    if fault.Some? {
      return Some(Failure(fault.value));
    }
    db.articleImages := WithoutArticle(db.articleImages, articleId);
    err := None;
  }

  lemma {:induction false} ImagesOfAppend(a: seq<ImageRow>, b: seq<ImageRow>, articleId: int)
    ensures ImagesOf(a + b, articleId) == ImagesOf(a, articleId) + ImagesOf(b, articleId)
  {
    if a == [] {
      assert a + b == b;
    } else {
      assert (a + b)[1..] == a[1..] + b;
      ImagesOfAppend(a[1..], b, articleId);
    }
  }

  /** Reading back the rows of one bulk insert gives the images, in order, and nothing for other articles. */
  lemma {:induction false} ImagesOfRowsFor(articleId: int, images: seq<string>, other: int)
    ensures ImagesOf(RowsFor(articleId, images), other) == if other == articleId then images else []
  {
    if images != [] {
      assert RowsFor(articleId, images)[1..] == RowsFor(articleId, images[1..]);
      ImagesOfRowsFor(articleId, images[1..], other);
    }
  }

  /** After a successful CreateBulk, GetAll of that article yields the old images followed by the new ones. */
  lemma CreateBulkThenGetAll(old_rows: seq<ImageRow>, articleId: int, images: seq<string>, other: int)
    ensures ImagesOf(old_rows + RowsFor(articleId, images), other)
         == ImagesOf(old_rows, other) + (if other == articleId then images else [])
  {
    ImagesOfAppend(old_rows, RowsFor(articleId, images), other);
    ImagesOfRowsFor(articleId, images, other);
  }

  /** After a successful DeleteBulk the article has no image and every other article keeps its images. */
  lemma {:induction false} DeleteBulkThenGetAll(rows: seq<ImageRow>, articleId: int, other: int)
    ensures ImagesOf(WithoutArticle(rows, articleId), other) == if other == articleId then [] else ImagesOf(rows, other)
  {
    if rows != [] {
      DeleteBulkThenGetAll(rows[1..], articleId, other);
    }
  }

  /** Replacing an article's images (delete, then insert) leaves exactly the new images. */
  lemma ReplaceImages(rows: seq<ImageRow>, articleId: int, images: seq<string>)
    ensures ImagesOf(WithoutArticle(rows, articleId) + RowsFor(articleId, images), articleId) == images
  {
    CreateBulkThenGetAll(WithoutArticle(rows, articleId), articleId, images, articleId);
    DeleteBulkThenGetAll(rows, articleId, articleId);
  }
}
