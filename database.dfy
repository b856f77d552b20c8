/**
 * The relational store as in-memory tables. Each field is one table, in the
 * order the database happens to return its rows (no query of the service
 * asks for an order). The `...Seq` fields are the serial columns' sequences:
 * Postgres does not roll a sequence back with the transaction that drew
 * from it, so they are not part of the snapshot a rollback restores.
 */
module Db {
  import opened Model

  /** The columns the article repository writes to `articles`. */
  datatype ArticleRow = ArticleRow(id: int, cropId: int, categoryId: int, title: string, text: string)

  /** A row of `articles_images`. */
  datatype ImageRow = ImageRow(articleId: int, img: string)

  /** A row of `articles_relations`. */
  datatype ArticleRelationRow = ArticleRelationRow(cropId: int, categoryId: int, articleId: int)

  /** A row of `crops_categories`. */
  datatype CropCategoryRow = CropCategoryRow(cropId: int, categoryId: int)

  /** The columns the crop repository writes and reads back. */
  datatype CropRow = CropRow(id: int, name: string)

  /** The columns the category repository writes. */
  datatype CategoryRow = CategoryRow(id: int, name: string)

  /** Every table at one moment: what a rollback restores. */
  datatype Tables = Tables(
    articles: seq<ArticleRow>,
    articleImages: seq<ImageRow>,
    articleRelations: seq<ArticleRelationRow>,
    cropsCategories: seq<CropCategoryRow>,
    entityStatus: seq<RepoStatus>,
    crops: seq<CropRow>,
    categories: seq<CategoryRow>)

  class Database {
    var articles: seq<ArticleRow>
    var articleImages: seq<ImageRow>
    var articleRelations: seq<ArticleRelationRow>
    var cropsCategories: seq<CropCategoryRow>
    var entityStatus: seq<RepoStatus>
    var crops: seq<CropRow>
    var categories: seq<CategoryRow>

    var articleSeq: int
    var statusSeq: int
    var cropSeq: int
    var categorySeq: int

    constructor ()
      ensures Contents() == Tables([], [], [], [], [], [], [])
      ensures articleSeq == 1 && statusSeq == 1 && cropSeq == 1 && categorySeq == 1
    {
      articles, articleImages, articleRelations, cropsCategories := [], [], [], [];
      entityStatus, crops, categories := [], [], [];
      articleSeq, statusSeq, cropSeq, categorySeq := 1, 1, 1, 1;
    }

    function Contents(): Tables
      reads this
    {
      Tables(articles, articleImages, articleRelations, cropsCategories, entityStatus, crops, categories)
    }

    /** Rollback: every table goes back to `c`; the sequences keep their values. */
    method Restore(c: Tables)
      modifies this`articles, this`articleImages, this`articleRelations, this`cropsCategories,
               this`entityStatus, this`crops, this`categories
      ensures Contents() == c
    {
      articles, articleImages, articleRelations, cropsCategories := c.articles, c.articleImages, c.articleRelations, c.cropsCategories;
      entityStatus, crops, categories := c.entityStatus, c.crops, c.categories;
    }
  }
}
