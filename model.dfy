/**
 * The records the service passes between its layers: the domain model the
 * HTTP handlers and services use, and the repository model that mirrors
 * table columns. A Go pointer field is an `Option`; `time.Time` is opaque.
 */
module Model {
  import opened Wrappers

  datatype Timestamp = Timestamp(nanos: int)

  /** The zero `time.Time`. */
  const ZeroTime: Timestamp := Timestamp(0)

  // ----- articles: domain -----

  datatype ArticleBody = ArticleBody(title: string, latinName: string, text: string, images: seq<string>)

  datatype Article = Article(id: int, body: ArticleBody)

  datatype ArticleGetAllParams = ArticleGetAllParams(
    cropId: Option<int>, categoryId: Option<int>, limit: Option<int>, offset: Option<int>,
    status: Option<string>)

  datatype ArticleUpdateInput = ArticleUpdateInput(
    title: Option<string>, latinName: Option<string>, text: Option<string>, images: seq<string>)

  // ----- articles: repository -----

  datatype RepoArticleBody = RepoArticleBody(title: string, latinName: string, text: string)

  /** A row of the `articles` table. */
  datatype RepoArticle = RepoArticle(id: int, body: RepoArticleBody)

  datatype RepoArticleGetAllParams = RepoArticleGetAllParams(
    cropId: Option<int>, categoryId: Option<int>, limit: Option<int>, offset: Option<int>)

  datatype RepoArticleUpdateInput = RepoArticleUpdateInput(
    title: Option<string>, latinName: Option<string>, text: Option<string>)

  // ----- categories: domain -----

  datatype CategoryInfo = CategoryInfo(
    name: string, description: Option<string>, icon: Option<string>, status: string)

  datatype Category = Category(
    id: int, info: CategoryInfo, createdAt: Option<Timestamp>, updatedAt: Option<Timestamp>)

  datatype CategoryGetAllParams = CategoryGetAllParams(
    cropId: Option<int>, limit: Option<int>, offset: Option<int>, status: Option<string>)

  datatype CategoryCreateParams = CategoryCreateParams(cropId: Option<int>)

  datatype UpdateCategoryInput = UpdateCategoryInput(
    name: Option<string>, description: Option<string>, icon: Option<string>, status: Option<string>)

  // ----- categories: repository -----

  datatype RepoCategoryInfo = RepoCategoryInfo(name: string, description: Option<string>, icon: Option<string>)

  datatype RepoCategory = RepoCategory(
    id: int, info: RepoCategoryInfo, createdAt: Timestamp, updatedAt: Timestamp)

  datatype RepoCategoryGetAllParams = RepoCategoryGetAllParams(
    cropId: Option<int>, limit: Option<int>, offset: Option<int>)

  datatype RepoCategoryUpdateInput = RepoCategoryUpdateInput(
    name: Option<string>, description: Option<string>, icon: Option<string>)

  // ----- crops: domain -----

  datatype CropInfo = CropInfo(name: string, description: Option<string>, img: Option<string>)

  datatype Crop = Crop(id: int, info: CropInfo, createdAt: Timestamp, updatedAt: Timestamp)

  datatype UpdateCropInput = UpdateCropInput(
    name: Option<string>, description: Option<string>, img: Option<string>)

  // ----- crops: repository -----

  datatype RepoCropInfo = RepoCropInfo(
    name: string, description: Option<string>, img: Option<string>, status: int)

  /** The repository's crop; its `Info` pointer is always set by the repository. */
  datatype RepoCrop = RepoCrop(id: int, info: RepoCropInfo, createdAt: Timestamp, updatedAt: Timestamp)

  datatype RepoCropUpdateInput = RepoCropUpdateInput(
    name: Option<string>, description: Option<string>, img: Option<string>, status: Option<int>)

  // ----- statuses -----

  datatype Status = Status(id: int, status: string)

  /** A row of the `entity_status` table. */
  datatype RepoStatus = RepoStatus(id: int, status: string)

  // ----- users (owned by the remote user service) -----

  datatype User = User(id: int, name: Option<string>, email: string, avatar: Option<string>, role: string)

  datatype UserUpdateInput = UserUpdateInput(
    name: Option<string>, email: Option<string>, avatar: Option<string>, role: Option<string>)

  /** `wrapperspb.StringValue`. */
  datatype StringValue = StringValue(value: string)
}
