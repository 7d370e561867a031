/** The lookup of the internal OAuth2 client (miniboss/src/routes/v1/clients/internal.rs). */
module InternalClient {
  import opened Wrappers
  import opened WebErrors
  import opened OAuth2Store

  datatype Response = Response(clientId: string, redirectUri: string)

  /** `Iterator::find(|c| c.is_internal)` over the client list. */
  function FindInternal(clients: seq<Client>): (r: Option<nat>)
    ensures r.None? <==> forall i :: 0 <= i < |clients| ==> !clients[i].isInternal
    ensures r.Some? ==> r.value < |clients| && clients[r.value].isInternal
    ensures r.Some? ==> forall j :: 0 <= j < r.value ==> !clients[j].isInternal
  {
    if |clients| == 0 then None
    else if clients[0].isInternal then Some(0)
    else
      match FindInternal(clients[1..])
      case None => None
      case Some(k) => Some(k + 1)
  }

  /** `internal`: the first internal client's id and redirect URI, or `InvalidInternalState`. */
  function Internal(clients: seq<Client>): (r: Result<Response, WebError>)
    ensures r.Failure? <==> forall i :: 0 <= i < |clients| ==> !clients[i].isInternal
    ensures r.Failure? ==> r.error == InvalidInternalState
    ensures r.Success? ==>
      (exists k :: 0 <= k < |clients| && clients[k].isInternal &&
         (forall j :: 0 <= j < k ==> !clients[j].isInternal) &&
         r.value == Response(clients[k].clientId, clients[k].redirectUri))
  {
    match FindInternal(clients)
    case None => Failure(InvalidInternalState)
    case Some(k) => Success(Response(clients[k].clientId, clients[k].redirectUri))
  }

  /** Several internal clients are not an error: the one listed first wins, whatever follows. */
  lemma FirstInternalWins(before: seq<Client>, c: Client, after: seq<Client>)
    requires forall i :: 0 <= i < |before| ==> !before[i].isInternal
    requires c.isInternal
    ensures Internal(before + [c] + after) == Success(Response(c.clientId, c.redirectUri))
  {
    var all := before + [c] + after;
    assert all[|before|] == c;
    assert forall j :: 0 <= j < |before| ==> all[j] == before[j];
  }
}
