/**
 * The access-service client (internal/clients/auth-service/grpc/access.go):
 * the privilege levels, and the request `Check` sends: the caller's token as
 * `authorization: Bearer <token>` metadata and the level as a `uint32`.
 */
module Access {
  import opened Wrappers
  import opened Errors
  import opened Clients
  import Request

  const UserAccessLevel: int := 0
  const ModeratorAccessLevel: int := 10
  const AdminAccessLevel: int := 25
  const CreatorAccessLevel: int := 100

  const Uint32Modulus: int := 0x1_0000_0000

  /** Go's conversion `uint32(level)`: the level modulo 2^32, two's-complement style. */
  function ToUint32(level: int): (r: nat)
    ensures r < Uint32Modulus
    ensures (level - r) % Uint32Modulus == 0
    ensures 0 <= level < Uint32Modulus ==> r == level
  {
    level % Uint32Modulus
  }

  /** The outgoing metadata carrying the access token. */
  function Metadata(accessToken: string): seq<(string, string)> {
    [("authorization", "Bearer " + accessToken)]
  }

  /**
   * Asks the access service whether `accessToken` grants `level`.
   * `reply` is the service's answer: `None` for success, else the failure.
   */
  method Check(remote: Remote, accessToken: string, level: int, reply: Option<Cause>) returns (err: Option<Error>)
    modifies remote
    ensures remote.calls == old(remote.calls) + [CheckCall(Metadata(accessToken), ToUint32(level))]
    ensures err.None? <==> reply.None?
    ensures err.Some? ==> err.value == CauseOnly(reply.value)
  {
    remote.Record(CheckCall(Metadata(accessToken), ToUint32(level)));
    if reply.Some? {
      return Some(CauseOnly(reply.value));
    }
    return None;
  }

  /** Every defined level reaches the access service unchanged. */
  lemma LevelsSentUnchanged()
    ensures ToUint32(UserAccessLevel) == UserAccessLevel
    ensures ToUint32(ModeratorAccessLevel) == ModeratorAccessLevel
    ensures ToUint32(AdminAccessLevel) == AdminAccessLevel
    ensures ToUint32(CreatorAccessLevel) == CreatorAccessLevel
  {
  }

  /** The header Check sends is one the service's own token parser reads back. */
  lemma MetadataRoundTrip(accessToken: string)
    requires Request.SpaceFree(accessToken)
    ensures |Metadata(accessToken)| == 1 && Metadata(accessToken)[0].0 == "authorization"
    ensures Request.GetAuthToken(Metadata(accessToken)[0].1) == Ok(accessToken)
  {
    Request.GetAuthTokenRoundTrip(accessToken);
  }
}
