/**
 * Field-copying converters between the domain model, the repository model
 * and protobuf string wrappers (internal/domain/converter). Each lemma below
 * says what a converter keeps and what it drops, as a round trip or as the
 * exact set of inputs it cannot tell apart.
 */
module Converter {
  import opened Wrappers
  import opened Model

  // ----- articles -----

  function ToArticle(article: RepoArticle, images: seq<string>): Article {
    Article(article.id, ArticleBody(article.body.title, article.body.latinName, article.body.text, images))
  }

  function ToRepoArticleBody(body: ArticleBody): RepoArticleBody {
    RepoArticleBody(body.title, body.latinName, body.text)
  }

  function ToRepoArticleGetAllParams(params: ArticleGetAllParams): RepoArticleGetAllParams {
    RepoArticleGetAllParams(params.cropId, params.categoryId, params.limit, params.offset)
  }

  function ToRepoArticleUpdateInput(input: ArticleUpdateInput): RepoArticleUpdateInput {
    RepoArticleUpdateInput(input.title, input.latinName, input.text)
  }

  /** Storing a body and reading it back with its own images gives the body back. */
  lemma ArticleRoundTrip(id: int, body: ArticleBody)
    ensures ToArticle(RepoArticle(id, ToRepoArticleBody(body)), body.images) == Article(id, body)
  {
  }

  /** The repository body keeps everything of the domain body except its images. */
  lemma RepoArticleBodyForgetsOnlyImages(a: ArticleBody, b: ArticleBody)
    ensures ToRepoArticleBody(a) == ToRepoArticleBody(b) <==> a.(images := b.images) == b
  {
  }

  /** The repository query parameters keep everything except the status filter. */
  lemma RepoArticleParamsForgetOnlyStatus(p: ArticleGetAllParams, q: ArticleGetAllParams)
    ensures ToRepoArticleGetAllParams(p) == ToRepoArticleGetAllParams(q) <==> p.(status := q.status) == q
  {
  }

  /** The repository update input keeps the three column fields and drops the images. */
  lemma RepoArticleUpdateForgetsOnlyImages(u: ArticleUpdateInput, v: ArticleUpdateInput)
    ensures ToRepoArticleUpdateInput(u) == ToRepoArticleUpdateInput(v) <==> u.(images := v.images) == v
  {
  }

  // ----- categories -----

  function ToCategory(category: RepoCategory): Category {
    Category(category.id,
             CategoryInfo(category.info.name, category.info.description, category.info.icon, ""),
             None, None)
  }

  function ToRepoCategoryInfo(info: CategoryInfo): RepoCategoryInfo {
    RepoCategoryInfo(info.name, info.description, None)
  }

  function ToRepoCategoryGetAllParams(params: CategoryGetAllParams): RepoCategoryGetAllParams {
    RepoCategoryGetAllParams(params.cropId, params.limit, params.offset)
  }

  function ToRepoCategoryUpdateInput(input: UpdateCategoryInput): RepoCategoryUpdateInput {
    RepoCategoryUpdateInput(input.name, input.description, input.icon)
  }

  /**
   * Converting category info to the repository and back keeps id, name and
   * description, loses the icon and the status label, and never sets the
   * timestamps; so the info survives exactly when it had neither.
   */
  lemma CategoryRoundTrip(id: int, info: CategoryInfo, created: Timestamp, updated: Timestamp)
    ensures ToCategory(RepoCategory(id, ToRepoCategoryInfo(info), created, updated))
            == Category(id, info.(icon := None, status := ""), None, None)
    ensures ToCategory(RepoCategory(id, ToRepoCategoryInfo(info), created, updated)).info == info
            <==> info.icon.None? && info.status == ""
  {
  }

  /** A repository category's icon reaches the domain category unchanged. */
  lemma CategoryIconCopied(c: RepoCategory)
    ensures ToCategory(c).info.icon == c.info.icon
    ensures ToCategory(c).info.name == c.info.name && ToCategory(c).info.description == c.info.description
    ensures ToCategory(c).createdAt.None? && ToCategory(c).updatedAt.None?
  {
  }

  lemma RepoCategoryParamsForgetOnlyStatus(p: CategoryGetAllParams, q: CategoryGetAllParams)
    ensures ToRepoCategoryGetAllParams(p) == ToRepoCategoryGetAllParams(q) <==> p.(status := q.status) == q
  {
  }

  lemma RepoCategoryUpdateForgetsOnlyStatus(u: UpdateCategoryInput, v: UpdateCategoryInput)
    ensures ToRepoCategoryUpdateInput(u) == ToRepoCategoryUpdateInput(v) <==> u.(status := v.status) == v
  {
  }

  // ----- crops -----

  function ToCropInfo(info: RepoCropInfo): CropInfo {
    CropInfo(info.name, info.description, info.img)
  }

  function ToCrop(crop: RepoCrop): Crop {
    Crop(crop.id, ToCropInfo(crop.info), crop.createdAt, crop.updatedAt)
  }

  function ToRepoCropInfo(info: CropInfo, status: int): RepoCropInfo {
    RepoCropInfo(info.name, info.description, info.img, status)
  }

  function ToRepoCropUpdateInput(input: UpdateCropInput): RepoCropUpdateInput {
    RepoCropUpdateInput(input.name, input.description, input.img, None)
  }

  /** Crop info survives a trip through the repository model, whatever status is stored. */
  lemma CropInfoRoundTrip(info: CropInfo, status: int)
    ensures ToCropInfo(ToRepoCropInfo(info, status)) == info
    ensures ToRepoCropInfo(info, status).status == status
  {
  }

  /** A stored crop reads back with its id, info and both timestamps. */
  lemma CropRoundTrip(id: int, info: CropInfo, status: int, created: Timestamp, updated: Timestamp)
    ensures ToCrop(RepoCrop(id, ToRepoCropInfo(info, status), created, updated)) == Crop(id, info, created, updated)
  {
  }

  /** The update input loses nothing, and never asks to change the status column. */
  lemma RepoCropUpdateKeepsFields(u: UpdateCropInput, v: UpdateCropInput)
    ensures ToRepoCropUpdateInput(u).status.None?
    ensures ToRepoCropUpdateInput(u) == ToRepoCropUpdateInput(v) <==> u == v
  {
  }

  // ----- protobuf string wrappers -----

  function ProtoStringToPtrString(s: Option<StringValue>): Option<string> {
    if s.None? then None else Some(s.value.value)
  }

  function StringPtrToProtoString(p: Option<string>): Option<StringValue> {
    if p.None? then None else Some(StringValue(p.value))
  }

  /** The two wrapper conversions are inverse to each other, nil included. */
  lemma ProtoStringRoundTrip(p: Option<string>, s: Option<StringValue>)
    ensures ProtoStringToPtrString(StringPtrToProtoString(p)) == p
    ensures StringPtrToProtoString(ProtoStringToPtrString(s)) == s
  {
  }
}
