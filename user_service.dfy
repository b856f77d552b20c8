/**
 * The user service (internal/service/user/user.go): a pass-through read, and
 * an update that is gated on a moderator access check unless the caller is
 * updating their own account without touching its role.
 */
module UserService {
  import opened Wrappers
  import opened Errors
  import opened Model
  import opened Clients
  import Access

  const ErrAccessDenied: Error := Bare(Sentinel(Layer.UserService, AccessDenied))
  const ErrInternalServerError: Error := Bare(Sentinel(Layer.UserService, InternalServerError))

  /** What the remote services answer to the calls Update may make. */
  datatype UpdateReplies = UpdateReplies(
    isUser: Option<Cause>,             // IsUser: None when the caller is user `id`
    accessToken: Result<string, Cause>,
    check: Option<Cause>,
    update: Option<Cause>)

  /** The caller must prove moderator access: not a self-update, or a role change. */
  predicate NeedsAccessCheck(replies: UpdateReplies, input: UserUpdateInput) {
    replies.isUser.Some? || input.role.Some?
  }

  /** The update may go ahead: no check was needed, or a token was obtained and passed the check. */
  predicate Permitted(replies: UpdateReplies, input: UserUpdateInput) {
    !NeedsAccessCheck(replies, input) || (replies.accessToken.Ok? && replies.check.None?)
  }

  /** The client's answer is returned as it is, error included. */
  function GetById(reply: Result<User, Error>): (r: (Option<User>, Option<Error>))
    ensures reply.Ok? ==> r == (Some(reply.value), None)
    ensures reply.Err? ==> r == (None, Some(reply.error))
  {
    if reply.Err? then (None, Some(reply.error)) else (Some(reply.value), None)
  }

  method Update(remote: Remote, id: int, input: UserUpdateInput, replies: UpdateReplies) returns (err: Option<Error>)
    modifies remote
    ensures |remote.calls| >= |old(remote.calls)| && remote.calls[..|old(remote.calls)|] == old(remote.calls)
    ensures var made := remote.calls[|old(remote.calls)|..];
      && |made| > 0 && made[0] == IsUserCall(id)
      && (AccessTokenCall in made <==> NeedsAccessCheck(replies, input))
      && (forall c :: c in made && c.CheckCall? ==>
            replies.accessToken.Ok? && c == CheckCall(Access.Metadata(replies.accessToken.value), Access.ModeratorAccessLevel))
      && ((exists c :: c in made && c.CheckCall?) <==> NeedsAccessCheck(replies, input) && replies.accessToken.Ok?)
      && (UpdateUserCall(id, input) in made <==> Permitted(replies, input))
      && (forall c :: c in made && c.UpdateUserCall? ==> c == UpdateUserCall(id, input))
    ensures !Permitted(replies, input) ==> err == Some(ErrAccessDenied)
    ensures Permitted(replies, input) ==> err == (if replies.update.Some? then Some(ErrInternalServerError) else None)
  {
    ghost var before := remote.calls;
    remote.Record(IsUserCall(id));
    ghost var checks: seq<RemoteCall> := [];
    if replies.isUser.Some? || input.role.Some? {
      remote.Record(AccessTokenCall);
      if replies.accessToken.Err? {
        assert remote.calls[|before|..] == [IsUserCall(id), AccessTokenCall];
        return Some(ErrAccessDenied);
      }
      var accessToken := replies.accessToken.value;
      var checkErr := Access.Check(remote, accessToken, Access.ModeratorAccessLevel, replies.check);
      checks := [AccessTokenCall, CheckCall(Access.Metadata(accessToken), Access.ModeratorAccessLevel)];
      if checkErr.Some? {
        assert remote.calls[|before|..] == [IsUserCall(id)] + checks;
        assert checks[1] in remote.calls[|before|..];
        return Some(ErrAccessDenied);
      }
    }
    remote.Record(UpdateUserCall(id, input));
    assert remote.calls[|before|..] == [IsUserCall(id)] + checks + [UpdateUserCall(id, input)];
    assert checks != [] ==> checks[1] in remote.calls[|before|..];
    if replies.update.Some? {
      return Some(ErrInternalServerError);
    }
    return None;
  }
}
