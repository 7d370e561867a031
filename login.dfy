/**
  `POST /oauth/login` (miniboss/src/routes/v1/oauth/login.rs): binds the user
  named by email and password to a pending authorization, after checking that
  a non-admin user may be granted every requested scope.
 */
module Login {
  import opened Wrappers
  import opened WebErrors
  import Users
  import PasswordHash
  import OAuth2Store
  import Strings

  datatype Request = Request(authorization: string, username: string, password: string)

  datatype Response = Response(status: bool)

  // ------------------------------------------------------------ scope string

  /** The separator of the OAuth2 `scope` string. */
  const SCOPE_SEPARATOR: char := ' '

  /**
    The requested scope set: the pieces of the `scope` string split on
    `' '`, duplicates collapsed; no `scope` at all gives the empty set.
   */
  function ScopeSet(scope: Option<string>): (r: set<string>)
    ensures scope.None? ==> r == {}
    ensures forall x :: x in r ==> ' ' !in x
  {
    match scope
    case None => {}
    case Some(s) => set piece | piece in Strings.Split(s, SCOPE_SEPARATOR)
  }

  /** A scope string written as space-separated tokens requests exactly those tokens, each once. */
  lemma ScopeSetOfTokens(tokens: seq<string>)
    requires |tokens| >= 1
    requires forall i :: 0 <= i < |tokens| ==> ' ' !in tokens[i]
    ensures ScopeSet(Some(Strings.Join(tokens, SCOPE_SEPARATOR))) == set t | t in tokens
  {
    Strings.SplitJoin(tokens, SCOPE_SEPARATOR);
  }

  /** An empty `scope`, or one with a trailing space, requests the empty-named scope. */
  lemma EmptyPieceRequested(s: string)
    requires s == [] || s[|s| - 1] == ' '
    ensures "" in ScopeSet(Some(s))
  {
    if s != [] {
      var t := s[..|s| - 1];
      assert s == t + " ";
      Strings.JoinSplit(t, SCOPE_SEPARATOR);
      var pieces := Strings.Split(t, SCOPE_SEPARATOR) + [""];
      Strings.JoinAppendEmpty(Strings.Split(t, SCOPE_SEPARATOR), SCOPE_SEPARATOR);
      Strings.SplitJoin(pieces, SCOPE_SEPARATOR);
      assert pieces[|pieces| - 1] == "";
    }
  }

  // ------------------------------------------------------------ scope policy

  /** `oidc_scopes`: the scopes every user may be granted. */
  function OidcScopes(): set<string> {
    {"openid", "profile", "email"}
  }

  /** The scopes a non-admin may be granted: the permitted ones and the OIDC scopes. */
  function AllowedScopes(permitted: seq<string>): (r: set<string>)
    ensures forall s :: s in r <==> s in permitted || s in OidcScopes()
  {
    (set s | s in permitted) + OidcScopes()
  }

  /** The requested scopes outside the allowed set. */
  function DisallowedScopes(requested: set<string>, permitted: seq<string>): (r: set<string>)
    ensures forall s :: s in r <==> s in requested && s !in permitted && s !in OidcScopes()
  {
    requested - AllowedScopes(permitted)
  }

  /** What `login` decides before it writes anything. */
  datatype Decision = Reject(error: WebError) | Bind(authorization: string, userId: string)

  /**
    The decision sequence of `login`, over the tables it reads: pending
    authorization, then user by email, then password, then scope policy.
   */
  function Decide(pending: map<string, OAuth2Store.PendingAuthorization>, users: seq<Users.UserRow>,
                  creds: seq<Users.Credential>, scopeRows: seq<Users.ScopeRow>,
                  req: Request, pepper: string, p: PasswordHash.Primitives): Decision
  {
    if req.authorization !in pending then Reject(NotFound)
    else match Users.FindByEmail(users, req.username)
      case None => Reject(Unauthorized)
      case Some(user) =>
        match Users.VerifyPasswordOf(users, creds, user.userId, req.password, pepper, p)
        case Failure(_) => Reject(Internal)
        case Success(verified) =>
          if !verified then Reject(Unauthorized)
          else if !user.isAdmin &&
                  DisallowedScopes(ScopeSet(pending[req.authorization].scopes), Users.ScopesOf(scopeRows, user.userId)) != {}
          then Reject(Forbidden)
          else Bind(req.authorization, user.userId)
  }

  /** An unknown pending authorization is `NotFound` whatever the user tables hold. */
  lemma UnknownAuthorizationIsNotFound(pending: map<string, OAuth2Store.PendingAuthorization>,
                                       users: seq<Users.UserRow>, creds: seq<Users.Credential>, scopeRows: seq<Users.ScopeRow>,
                                       users': seq<Users.UserRow>, creds': seq<Users.Credential>, scopeRows': seq<Users.ScopeRow>,
                                       req: Request, pepper: string, p: PasswordHash.Primitives)
    requires req.authorization !in pending
    ensures Decide(pending, users, creds, scopeRows, req, pepper, p) == Reject(NotFound)
    ensures Decide(pending, users, creds, scopeRows, req, pepper, p) == Decide(pending, users', creds', scopeRows', req, pepper, p)
  {
  }

  /** An unknown email and a wrong password give the same `Unauthorized`, and nothing is bound. */
  lemma BadCredentialsAreUnauthorized(pending: map<string, OAuth2Store.PendingAuthorization>, users: seq<Users.UserRow>,
                                      creds: seq<Users.Credential>, scopeRows: seq<Users.ScopeRow>,
                                      req: Request, pepper: string, p: PasswordHash.Primitives)
    requires req.authorization in pending
    requires Users.FindByEmail(users, req.username).None? ||
      Users.VerifyPasswordOf(users, creds, Users.FindByEmail(users, req.username).value.userId, req.password, pepper, p) == Success(false)
    ensures Decide(pending, users, creds, scopeRows, req, pepper, p) == Reject(Unauthorized)
  {
  }

  /** An admin with the right password is bound whatever scopes are requested or permitted. */
  lemma AdminSkipsScopeCheck(pending: map<string, OAuth2Store.PendingAuthorization>, users: seq<Users.UserRow>,
                             creds: seq<Users.Credential>, scopeRows: seq<Users.ScopeRow>,
                             req: Request, pepper: string, p: PasswordHash.Primitives, u: Users.User)
    requires req.authorization in pending
    requires Users.FindByEmail(users, req.username) == Some(u) && u.isAdmin
    requires Users.VerifyPasswordOf(users, creds, u.userId, req.password, pepper, p) == Success(true)
    ensures Decide(pending, users, creds, scopeRows, req, pepper, p) == Bind(req.authorization, u.userId)
  {
  }

  /**
    A non-admin with the right password is `Forbidden` exactly when some
    requested scope is neither permitted nor an OIDC scope; otherwise bound.
   */
  lemma ForbiddenIffScopeNotAllowed(pending: map<string, OAuth2Store.PendingAuthorization>, users: seq<Users.UserRow>,
                                    creds: seq<Users.Credential>, scopeRows: seq<Users.ScopeRow>,
                                    req: Request, pepper: string, p: PasswordHash.Primitives, u: Users.User)
    requires req.authorization in pending
    requires Users.FindByEmail(users, req.username) == Some(u) && !u.isAdmin
    requires Users.VerifyPasswordOf(users, creds, u.userId, req.password, pepper, p) == Success(true)
    ensures Decide(pending, users, creds, scopeRows, req, pepper, p) == Reject(Forbidden) <==>
      exists s :: s in ScopeSet(pending[req.authorization].scopes) &&
        Users.ScopeRow(u.userId, s) !in scopeRows && s !in OidcScopes()
    ensures Decide(pending, users, creds, scopeRows, req, pepper, p) != Reject(Forbidden) ==>
      Decide(pending, users, creds, scopeRows, req, pepper, p) == Bind(req.authorization, u.userId)
  {
    var requested := ScopeSet(pending[req.authorization].scopes);
    var permitted := Users.ScopesOf(scopeRows, u.userId);
    if DisallowedScopes(requested, permitted) != {} {
      var s :| s in DisallowedScopes(requested, permitted);
      assert Users.ScopeRow(u.userId, s) !in scopeRows;
    }
  }

  /** A binding names the authorization asked for and the user found by email, whose password matched. */
  lemma BindingIsTheEmailUser(pending: map<string, OAuth2Store.PendingAuthorization>, users: seq<Users.UserRow>,
                              creds: seq<Users.Credential>, scopeRows: seq<Users.ScopeRow>,
                              req: Request, pepper: string, p: PasswordHash.Primitives)
    requires Decide(pending, users, creds, scopeRows, req, pepper, p).Bind?
    ensures var d := Decide(pending, users, creds, scopeRows, req, pepper, p);
      d.authorization == req.authorization && req.authorization in pending &&
      Users.FindByEmail(users, req.username).Some? &&
      Users.FindByEmail(users, req.username).value.userId == d.userId &&
      Users.VerifyPasswordOf(users, creds, d.userId, req.password, pepper, p) == Success(true)
  {
  }

  /**
    For a non-admin whose permitted scopes are exactly `custom:scope`,
    `openid profile custom:scope` is allowed, and without that permission it
    is refused as a whole.
   */
  lemma CustomScopeExample()
    ensures Strings.Join(["openid", "profile", "custom:scope"], SCOPE_SEPARATOR) == "openid profile custom:scope"
    ensures DisallowedScopes(ScopeSet(Some(Strings.Join(["openid", "profile", "custom:scope"], SCOPE_SEPARATOR))), ["custom:scope"]) == {}
    ensures DisallowedScopes(ScopeSet(Some(Strings.Join(["openid", "profile", "custom:scope"], SCOPE_SEPARATOR))), []) == {"custom:scope"}
  {
    var tokens := ["openid", "profile", "custom:scope"];
    assert Strings.Join(tokens[2..], SCOPE_SEPARATOR) == "custom:scope";
    assert Strings.Join(tokens[1..], SCOPE_SEPARATOR) == "profile custom:scope";
    ScopeSetOfTokens(tokens);
    var requested := ScopeSet(Some(Strings.Join(tokens, SCOPE_SEPARATOR)));
    forall x | x in requested ensures x in AllowedScopes(["custom:scope"]) {
      assert x in tokens;
    }
    assert "custom:scope" in requested by {
      assert tokens[2] == "custom:scope";
    }
    forall x | x in DisallowedScopes(requested, []) ensures x == "custom:scope" {
      assert x in tokens;
    }
  }

  // ------------------------------------------------------------ the handler

  /**
    `login`: every rejection leaves the pending authorization untouched (no
    partial grant); a binding sets the user id of the authorization and
    answers `status: true`, or is `BadRequest` when `set_user_id` fails.
   */
  method Login(store: OAuth2Store.PendingAuthorizations, dir: Users.Directory, req: Request,
               pepper: string, p: PasswordHash.Primitives)
    returns (r: Result<Response, WebError>)
    modifies store
    ensures var d := Decide(old(store.rows), dir.users, dir.credentials, dir.permittedScopes, req, pepper, p);
      (d.Reject? ==> r == Failure(d.error) && store.rows == old(store.rows)) &&
      (d.Bind? ==>
        (r == Success(Response(true)) &&
         store.rows == old(store.rows)[d.authorization := old(store.rows)[d.authorization].(userId := Some(d.userId))]) ||
        (r == Failure(BadRequest) && store.rows == old(store.rows)))
  {
    var authorization := store.GetById(req.authorization);
    if authorization.None? {
      return Failure(NotFound);
    }
    var user := dir.GetByEmail(req.username);
    if user.None? {
      return Failure(Unauthorized);
    }
    var verified := dir.VerifyPassword(user.value, req.password, pepper, p);
    if verified.Failure? {
      return Failure(Internal);
    }
    if !verified.value {
      return Failure(Unauthorized);
    }
    var scopeSet := ScopeSet(authorization.value.scopes);
    if !user.value.isAdmin {
      var permitted := dir.ListPermittedScopes(user.value);
      var disallowed := scopeSet - AllowedScopes(permitted);
      if disallowed != {} {
        return Failure(Forbidden);
      }
    }
    var bound := store.SetUserId(req.authorization, user.value.userId);
    if !bound {
      return Failure(BadRequest);
    }
    r := Success(Response(true));
  }
}
