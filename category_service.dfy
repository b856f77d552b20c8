/**
 * The category service. Repository failures are logged and either
 * flattened to the internal-error sentinel (Create) or dropped altogether
 * (the listings, which then return an empty list and no error).
 */
module CategoryService {
  import opened Wrappers
  import opened Errors
  import opened Model
  import opened Db
  import opened Converter
  import CategoryRepo

  const ErrAlreadyExists := Sentinel(Layer.CategoryService, Kind.AlreadyExists)
  const ErrInternalServerError := Sentinel(Layer.CategoryService, Kind.InternalServerError)

  /** Stores the category's name; any failure, a duplicate included, is internal. */
  method Create(db: Database, info: CategoryInfo, fault: Option<DbFailure>) returns (id: int, err: Option<Error>)
    modifies db`categories, db`categorySeq
    ensures err.None? <==> fault.None?
    ensures err.None? ==> id == old(db.categorySeq) && db.categories == old(db.categories) + [CategoryRow(id, info.name)]
    ensures err.None? ==> db.categorySeq == old(db.categorySeq) + 1
    ensures err.Some? ==> id == 0 && db.categories == old(db.categories) && db.categorySeq == old(db.categorySeq) + SerialsDrawn(fault.value)
    ensures err.Some? ==> err.value == Bare(ErrInternalServerError) && !Is(err.value, ErrAlreadyExists)
  {
    var e: Option<Error>;
    id, e := CategoryRepo.Create(db, ToRepoCategoryInfo(info), fault);
    if e.Some? {
      return 0, Some(Bare(ErrInternalServerError));
    }
    err := None;
  }

  /**
   * The body GetList and GetAll share: `listed` is the repository's
   * answer. Its error is only logged, and the (nil) list of a failed read
   * converts to an empty one, so the service never fails.
   */
  method List(listed: Result<seq<RepoCategory>, Error>) returns (categories: seq<Category>, err: Option<Error>)
    ensures err.None?
    ensures listed.Err? ==> categories == []
    ensures listed.Ok? ==>
      |categories| == |listed.value| &&
      forall i :: 0 <= i < |categories| ==> categories[i] == ToCategory(listed.value[i])
  {
    var repoCategories := if listed.Ok? then listed.value else [];
    categories := [];
    var i := 0;
    while i < |repoCategories|
      invariant 0 <= i <= |repoCategories| && |categories| == i
      invariant forall k :: 0 <= k < i ==> categories[k] == ToCategory(repoCategories[k])
    {
      categories := categories + [ToCategory(repoCategories[i])];
      i := i + 1;
    }
    err := None;
  }

  /** A listed category keeps its id, name and description; status is empty and the timestamps are dropped. */
  lemma ListedCategory(c: RepoCategory)
    ensures ToCategory(c).id == c.id && ToCategory(c).info.name == c.info.name
    ensures ToCategory(c).info.description == c.info.description && ToCategory(c).info.status == ""
    ensures ToCategory(c).createdAt.None? && ToCategory(c).updatedAt.None?
  {
  }
}
