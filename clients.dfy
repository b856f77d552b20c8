/**
 * The remote auth, access and user services, seen from this service: each
 * call is recorded in the order it is made, and its reply is supplied from
 * outside (the network is not modelled).
 */
module Clients {
  import opened Wrappers
  import opened Errors
  import opened Model

  /** A call made to a remote service. */
  datatype RemoteCall =
    | IsUserCall(userId: int)
    | AccessTokenCall
    | CheckCall(metadata: seq<(string, string)>, requiredLvl: nat)
    | UpdateUserCall(userId: int, input: UserUpdateInput)

  /** The log of every remote call made so far. */
  class Remote {
    var calls: seq<RemoteCall>

    constructor ()
      ensures calls == []
    {
      calls := [];
    }

    /** Records `call`; nothing else about the remote side changes here. */
    method Record(call: RemoteCall)
      modifies this
      ensures calls == old(calls) + [call]
    {
      calls := calls + [call];
    }
  }
}
