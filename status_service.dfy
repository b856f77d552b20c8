/** The status service: a lookup by label, any failure reported as internal. */
module StatusService {
  import opened Wrappers
  import opened Errors
  import opened Model
  import StatusRepo

  const ErrInternalServerError := Sentinel(Layer.StatusService, Kind.InternalServerError)

  /** `found` is the status repository's answer for the label. */
  function GetByStatus(found: Result<RepoStatus, Error>): (r: (Option<Status>, Option<Error>))
    ensures r.0.Some? <==> r.1.None?
    ensures found.Ok? ==> r.0 == Some(Status(found.value.id, found.value.status))
    ensures found.Err? ==> r.1 == Some(Bare(ErrInternalServerError))
  {
    match found
    case Err(_) => (None, Some(Bare(ErrInternalServerError)))
    case Ok(st) => (Some(Status(st.id, st.status)), None)
  }

  /** With distinct labels, a stored label is found with its id. */
  lemma StoredLabelFound(rows: seq<RepoStatus>, s: RepoStatus)
    requires StatusRepo.UniqueLabels(rows) && s in rows
    ensures GetByStatus(StatusRepo.GetByStatus(rows, s.status, None)) == (Some(Status(s.id, s.status)), None)
  {
    StatusRepo.GetByStatusFindsStoredLabel(rows, s);
  }

  /** A label no row carries is an internal error. */
  lemma MissingLabelFails(rows: seq<RepoStatus>, wanted: string)
    requires forall i :: 0 <= i < |rows| ==> rows[i].status != wanted
    ensures GetByStatus(StatusRepo.GetByStatus(rows, wanted, None)) == (None, Some(Bare(ErrInternalServerError)))
  {
    var m := StatusRepo.WithLabel(rows, wanted);
    if |m| > 0 {
      assert m[0] in rows;
    }
  }
}
