/**
  Bearer-token authentication of API requests (miniboss/src/routes/auth.rs):
  extracting the token from the `Authorization` header or cookie, and
  accepting it when it is known, unexpired and its user still exists.
 */
module Authentication {
  import opened Wrappers
  import opened WebErrors
  import Utf8
  import Users
  import OAuth2Store
  import opened Strings

  type byte = Utf8.byte

  const BEARER: string := "Bearer "

  /**
    A request as token extraction sees it: the raw bytes of the first
    `Authorization` header, and the value of the `Authorization` cookie.
   */
  datatype Request = Request(header: Option<seq<byte>>, cookie: Option<string>)

  /** The authenticated caller: the user and the token it presented. */
  datatype Auth = Auth(user: Users.User, token: OAuth2Store.AccessToken)

  predicate IsVisibleAscii(b: byte) {
    32 <= b < 127 || b == 9
  }

  /** `HeaderValue::to_str`: the header as text when it is visible ASCII (or tab) throughout. */
  function HeaderToStr(bytes: seq<byte>): (r: Option<string>)
    ensures r.Some? <==> forall i :: 0 <= i < |bytes| ==> IsVisibleAscii(bytes[i])
    ensures r.Some? ==> Utf8.Encode(r.value) == bytes
  {
    if forall i :: 0 <= i < |bytes| ==> IsVisibleAscii(bytes[i]) then
      var s := seq(|bytes|, i requires 0 <= i < |bytes| => bytes[i] as int as char);
      Utf8.AsciiEncoding(s);
      assert Utf8.Encode(s) == bytes;
      Some(s)
    else
      None
  }

  /** Whether `pat` occurs in `s` starting at index `i`. */
  predicate OccursAt(s: string, pat: string, i: nat) {
    i + |pat| <= |s| && s[i..i + |pat|] == pat
  }

  /** Whether `pat` occurs anywhere in `s`. */
  predicate Occurs(s: string, pat: string) {
    exists i: nat | i <= |s| :: OccursAt(s, pat, i)
  }

  /** `s.replace(pat, "")`: every non-overlapping occurrence of `pat`, left to right, removed. */
  function RemoveAll(s: string, pat: string): (r: string)
    requires |pat| > 0
    ensures |r| <= |s|
    decreases |s|
  {
    if |s| < |pat| then s
    else if s[..|pat|] == pat then RemoveAll(s[|pat|..], pat)
    else [s[0]] + RemoveAll(s[1..], pat)
  }

  /** A string without the pattern is left as it is. */
  lemma {:induction false} RemoveAllAbsent(s: string, pat: string)
    requires |pat| > 0 && !Occurs(s, pat)
    ensures RemoveAll(s, pat) == s
    decreases |s|
  {
    if |s| >= |pat| {
      assert !OccursAt(s, pat, 0);
      assert s[0..|pat|] == s[..|pat|];
      assert !Occurs(s[1..], pat) by {
        forall i: nat | i <= |s[1..]| && OccursAt(s[1..], pat, i) ensures false {
          assert s[1..][i..i + |pat|] == s[i + 1..i + 1 + |pat|];
          assert OccursAt(s, pat, i + 1);
        }
      }
      RemoveAllAbsent(s[1..], pat);
      assert [s[0]] + s[1..] == s;
    }
  }

  /** The header as text when it is present and visible ASCII, else `None`. */
  function HeaderText(req: Request): Option<string> {
    if req.header.Some? then HeaderToStr(req.header.value) else None
  }

  predicate HeaderUsable(req: Request) {
    HeaderText(req).Some? && StartsWith(HeaderText(req).value, BEARER)
  }

  predicate CookieUsable(req: Request) {
    req.cookie.Some? && StartsWith(req.cookie.value, BEARER)
  }

  /**
    `get_authorization_token`: a usable `Bearer ` header first, then a
    `Bearer ` cookie, else `Unauthorized`.
   */
  function GetAuthorizationToken(req: Request): (r: Result<string, WebError>)
    ensures r.Failure? <==> !HeaderUsable(req) && !CookieUsable(req)
    ensures r.Failure? ==> r.error == Unauthorized
  {
    var header := HeaderText(req);
    if header.Some? && StartsWith(header.value, BEARER) then
      Success(RemoveAll(header.value, BEARER))
    else if req.cookie.Some? && StartsWith(req.cookie.value, BEARER) then
      Success(RemoveAll(req.cookie.value, BEARER))
    else
      Failure(Unauthorized)
  }

  /** A usable header decides the token; the cookie is never consulted. */
  lemma HeaderTakesPrecedence(header: seq<byte>, cookie: Option<string>, cookie': Option<string>)
    requires HeaderUsable(Request(Some(header), cookie))
    ensures GetAuthorizationToken(Request(Some(header), cookie)) == GetAuthorizationToken(Request(Some(header), cookie'))
    ensures GetAuthorizationToken(Request(Some(header), cookie)) == Success(RemoveAll(HeaderToStr(header).value, BEARER))
  {
  }

  /** Without a usable header (absent, not visible ASCII, or not `Bearer `), the cookie decides. */
  lemma CookieFallback(req: Request, c: string)
    requires !HeaderUsable(req) && req.cookie == Some(c)
    ensures StartsWith(c, BEARER) ==> GetAuthorizationToken(req) == Success(RemoveAll(c, BEARER))
    ensures !StartsWith(c, BEARER) ==> GetAuthorizationToken(req) == Failure(Unauthorized)
  {
  }

  /** `Bearer <t>` yields `t` when `t` itself holds no `Bearer `. */
  lemma BearerTokenStripped(t: string)
    requires !Occurs(t, BEARER)
    ensures RemoveAll(BEARER + t, BEARER) == t
  {
    var s := BEARER + t;
    assert s[..|BEARER|] == BEARER && s[|BEARER|..] == t;
    RemoveAllAbsent(t, BEARER);
  }

  /** Text that cannot start an occurrence (it holds no `B`) is copied through. */
  lemma {:induction false} RemoveAllCopiesText(a: string, rest: string)
    requires 'B' !in a
    ensures RemoveAll(a + rest, BEARER) == a + RemoveAll(rest, BEARER)
  {
    if a == [] {
      assert a + rest == rest;
    } else {
      var s := a + rest;
      assert s[0] == a[0] && s[1..] == a[1..] + rest;
      if |s| >= |BEARER| {
        assert s[..|BEARER|][0] != BEARER[0];
      }
      RemoveAllCopiesText(a[1..], rest);
      assert [a[0]] + (a[1..] + RemoveAll(rest, BEARER)) == a + RemoveAll(rest, BEARER);
    }
  }

  /**
    Every occurrence is removed, not only the leading one: a header
    `Bearer <a>Bearer <b>` yields `<a><b>`.
   */
  lemma EveryOccurrenceRemoved(a: string, b: string)
    requires 'B' !in a && !Occurs(b, BEARER)
    ensures RemoveAll(BEARER + a + BEARER + b, BEARER) == a + b
  {
    var s := BEARER + a + BEARER + b;
    assert s[..|BEARER|] == BEARER && s[|BEARER|..] == a + (BEARER + b);
    RemoveAllCopiesText(a, BEARER + b);
    BearerTokenStripped(b);
  }

  /** `Bearer <a1>Bearer <a2>…Bearer <an>`. */
  function BearerPieces(pieces: seq<string>): string {
    if pieces == [] then [] else BEARER + pieces[0] + BearerPieces(pieces[1..])
  }

  /** `<a1><a2>…<an>`. */
  function Concat(pieces: seq<string>): string {
    if pieces == [] then [] else pieces[0] + Concat(pieces[1..])
  }

  /**
    Every occurrence is removed, however many there are: when no piece holds
    a `B`, `Bearer <a1>…Bearer <an>` yields `<a1>…<an>`.
   */
  lemma {:induction false} EveryBearerRemoved(pieces: seq<string>)
    requires forall i :: 0 <= i < |pieces| ==> 'B' !in pieces[i]
    ensures RemoveAll(BearerPieces(pieces), BEARER) == Concat(pieces)
  {
    if pieces != [] {
      var rest := BearerPieces(pieces[1..]);
      var s := BEARER + pieces[0] + rest;
      assert s[..|BEARER|] == BEARER && s[|BEARER|..] == pieces[0] + rest;
      RemoveAllCopiesText(pieces[0], rest);
      EveryBearerRemoved(pieces[1..]);
    }
  }

  /**
    `from_request` after extraction: an unknown token, a token with
    `expires_at < now`, or a token whose user no longer exists is
    `Unauthorized`; otherwise the caller is that user with that token.
   */
  function Authenticate(req: Request, tokens: map<string, OAuth2Store.AccessToken>,
                        users: seq<Users.UserRow>, now: int): (r: Result<Auth, WebError>)
    ensures r.Failure? ==> r.error == Unauthorized
    ensures r.Success? <==>
      var t := GetAuthorizationToken(req);
      t.Success? && t.value in tokens && now <= tokens[t.value].expiresAt &&
      Users.FindById(users, tokens[t.value].userId).Some?
    ensures r.Success? ==>
      var t := GetAuthorizationToken(req).value;
      r.value.token == tokens[t] && r.value.user.userId == tokens[t].userId &&
      Users.FindById(users, tokens[t].userId) == Some(r.value.user)
  {
    match GetAuthorizationToken(req)
    case Failure(e) => Failure(e)
    case Success(t) =>
      if t !in tokens then Failure(Unauthorized)
      else if tokens[t].expiresAt < now then Failure(Unauthorized)
      else match Users.FindById(users, tokens[t].userId)
        case None => Failure(Unauthorized)
        case Some(user) => Success(Auth(user, tokens[t]))
  }

  /** Expiry is strict: a token is still accepted in the second it expires, and refused one second later. */
  lemma ExpiryBoundary(req: Request, tokens: map<string, OAuth2Store.AccessToken>, users: seq<Users.UserRow>, t: string)
    requires GetAuthorizationToken(req) == Success(t) && t in tokens
    requires Users.FindById(users, tokens[t].userId).Some?
    ensures Authenticate(req, tokens, users, tokens[t].expiresAt).Success?
    ensures Authenticate(req, tokens, users, tokens[t].expiresAt + 1) == Failure(Unauthorized)
  {
  }

  /** `has_scope`. */
  function HasScope(a: Auth, scope: string): bool {
    scope in a.token.scopes
  }

  /** `scopes`. */
  function Scopes(a: Auth): set<string> {
    a.token.scopes
  }

  /** For an authenticated request, `has_scope` is membership in the presented token's scope set. */
  lemma HasScopeIsTokenScope(req: Request, tokens: map<string, OAuth2Store.AccessToken>,
                             users: seq<Users.UserRow>, now: int, scope: string)
    requires Authenticate(req, tokens, users, now).Success?
    ensures var a := Authenticate(req, tokens, users, now).value;
      var t := GetAuthorizationToken(req).value;
      Scopes(a) == tokens[t].scopes && (HasScope(a, scope) <==> scope in tokens[t].scopes)
  {
  }
}
