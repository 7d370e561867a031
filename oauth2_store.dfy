/**
  The rows of `database::oauth2_client` that the modelled handlers read or
  write. That module is not part of this model; only the fields and the two
  operations the handlers use are represented.
 */
module OAuth2Store {
  import opened Wrappers

  /** A pending authorization: its id, the requested `scope` string if any, and the bound user. */
  datatype PendingAuthorization = PendingAuthorization(id: string, scopes: Option<string>, userId: Option<string>)

  /** An issued access token: who it belongs to, its scope set and its expiry (unix seconds). */
  datatype AccessToken = AccessToken(token: string, userId: string, scopes: set<string>, expiresAt: int)

  /** A registered OAuth2 client. */
  datatype Client = Client(clientId: string, redirectUri: string, isInternal: bool)

  /** The pending-authorization table, keyed by id. */
  class PendingAuthorizations {
    var rows: map<string, PendingAuthorization>

    constructor (rows: map<string, PendingAuthorization>)
      ensures this.rows == rows
    {
      this.rows := rows;
    }

    /** `OAuth2PendingAuthorization::get_by_id`. */
    method GetById(id: string) returns (r: Option<PendingAuthorization>)
      ensures r.Some? <==> id in rows
      ensures r.Some? ==> r.value == rows[id]
    {
      r := if id in rows then Some(rows[id]) else None;
    }

    /**
      `set_user_id`: binds a user to the authorization. The store may refuse
      (a storage failure); then nothing changes.
     */
    method SetUserId(id: string, userId: string) returns (ok: bool)
      requires id in rows
      modifies this
      ensures ok ==> rows == old(rows)[id := old(rows)[id].(userId := Some(userId))]
      ensures !ok ==> rows == old(rows)
    {
      ok := *;
      if ok {
        rows := rows[id := rows[id].(userId := Some(userId))];
      }
    }
  }
}
