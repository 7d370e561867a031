/**
  OAuth2 error reporting (miniboss/src/routes/v1/oauth/mod.rs): the error
  codes of section 4.1.2.1 and section 5.2 of RFC 6749, the redirect that
  carries them back to the client, and the JSON error body.
 */
module OAuth2Errors {
  import opened Wrappers
  import Strings

  datatype ErrorKind =
    | InvalidRequest
    | UnauthorizedClient
    | AccessDenied
    | UnsupportedResponseType
    | InvalidScope
    | ServerError
    | InvalidGrant
    | UnsupportedGrantType

  /** `Display for OAuth2ErrorKind`: the RFC 6749 error code. */
  function ErrorCode(kind: ErrorKind): string {
    match kind
    case InvalidRequest => "invalid_request"
    case UnauthorizedClient => "unauthorized_client"
    case AccessDenied => "access_denied"
    case UnsupportedResponseType => "unsupported_response_type"
    case InvalidScope => "invalid_scope"
    case ServerError => "server_error"
    case InvalidGrant => "invalid_grant"
    case UnsupportedGrantType => "unsupported_grant_type"
  }

  /** The kind a client reads back from an `error` value; the inverse of `ErrorCode`. */
  function ParseErrorCode(code: string): Option<ErrorKind> {
    if code == "invalid_request" then Some(InvalidRequest)
    else if code == "unauthorized_client" then Some(UnauthorizedClient)
    else if code == "access_denied" then Some(AccessDenied)
    else if code == "unsupported_response_type" then Some(UnsupportedResponseType)
    else if code == "invalid_scope" then Some(InvalidScope)
    else if code == "server_error" then Some(ServerError)
    else if code == "invalid_grant" then Some(InvalidGrant)
    else if code == "unsupported_grant_type" then Some(UnsupportedGrantType)
    else None
  }

  lemma ParseErrorCodeOfErrorCode(kind: ErrorKind)
    ensures ParseErrorCode(ErrorCode(kind)) == Some(kind)
  {
  }

  lemma ErrorCodeOfParse(code: string, kind: ErrorKind)
    requires ParseErrorCode(code) == Some(kind)
    ensures ErrorCode(kind) == code
  {
  }

  /** No two kinds display alike. */
  lemma ErrorCodeInjective(k1: ErrorKind, k2: ErrorKind)
    requires ErrorCode(k1) == ErrorCode(k2)
    ensures k1 == k2
  {
    ParseErrorCodeOfErrorCode(k1);
    ParseErrorCodeOfErrorCode(k2);
  }

  /** The characters section 4.1.2.1 of RFC 6749 allows in `error`: %x20-21 / %x23-5B / %x5D-7E. */
  predicate ErrorValueChar(c: char) {
    (0x20 <= c as int <= 0x21) || (0x23 <= c as int <= 0x5B) || (0x5D <= c as int <= 0x7E)
  }

  lemma ErrorCodesUseAllowedCharacters(kind: ErrorKind)
    ensures |ErrorCode(kind)| > 0
    ensures forall i :: 0 <= i < |ErrorCode(kind)| ==> ErrorValueChar(ErrorCode(kind)[i])
  {
  }

  /** `OAuth2Error`: a kind with the redirect target and the client's `state`. */
  datatype OAuth2Error = OAuth2Error(kind: ErrorKind, redirectUri: string, state: Option<string>)

  /** `OAuth2Error::new`: keeps the redirect URI and the state as given. */
  function NewError(kind: ErrorKind, redirectUri: string, state: Option<string>): OAuth2Error {
    OAuth2Error(kind, redirectUri, state)
  }

  datatype Body = Empty | Json(fields: seq<(string, string)>)

  /** A response; `headers` holds only the headers the handler inserts itself, not those actix adds. */
  datatype HttpResponse = HttpResponse(status: nat, headers: seq<(string, string)>, body: Body)

  const SEE_OTHER: nat := 303
  const BAD_REQUEST: nat := 400

  /** `OAuth2AuthorizationResponse`: the handler's own response, or an error to redirect with. */
  datatype AuthorizationResponse<T> = Ok(value: T) | Err(error: OAuth2Error)

  /**
    `serde_qs::to_string` of the `Query { error, state }` struct: fields in
    declaration order, `state` skipped when `None`. `encode` is the
    encoder's escaping of a value, not modelled.
   */
  function Query(e: OAuth2Error, encode: string -> string): string {
    "error=" + encode(ErrorCode(e.kind)) + (if e.state.Some? then "&state=" + encode(e.state.value) else "")
  }

  /** `respond_to`: `Ok(v)` is `v`'s own response; `Err(e)` is a 303 to `redirect_uri?query`. */
  function RespondTo<T>(r: AuthorizationResponse<T>, render: T -> HttpResponse, encode: string -> string): HttpResponse {
    match r
    case Ok(v) => render(v)
    case Err(e) => HttpResponse(SEE_OTHER, [("Location", e.redirectUri + "?" + Query(e, encode))], Empty)
  }

  /** An encoder that escapes the query's own delimiters. */
  ghost predicate EscapesDelimiters(encode: string -> string) {
    forall v :: '&' !in encode(v) && '=' !in encode(v)
  }

  /** How a client reads a query: `&`-separated pairs, each split on `=`. */
  function ParseQuery(q: string): seq<seq<string>> {
    var pairs := Strings.Split(q, '&');
    seq(|pairs|, i requires 0 <= i < |pairs| => Strings.Split(pairs[i], '='))
  }

  lemma {:induction false} ParsePair(name: string, value: string)
    requires '=' !in name && '=' !in value
    ensures Strings.Split(name + "=" + value, '=') == [name, value]
  {
    assert Strings.Join([name, value], '=') == name + "=" + value;
    Strings.SplitJoin([name, value], '=');
  }

  /**
    The redirect of an error: status 303, Location is the redirect URI
    unchanged, then `?`, then a query whose pairs are `error` with the
    kind's code and, exactly when the state is present, `state` with it.
   */
  lemma ErrorRedirect<T>(e: OAuth2Error, render: T -> HttpResponse, encode: string -> string)
    requires EscapesDelimiters(encode)
    ensures var resp := RespondTo(Err(e), render, encode);
      resp.status == SEE_OTHER && resp.body == Empty && |resp.headers| == 1 &&
      resp.headers[0].0 == "Location" &&
      var url := resp.headers[0].1;
      |url| > |e.redirectUri| && url[..|e.redirectUri|] == e.redirectUri && url[|e.redirectUri|] == '?' &&
      ParseQuery(url[|e.redirectUri| + 1..]) ==
        [["error", encode(ErrorCode(e.kind))]] + (if e.state.Some? then [["state", encode(e.state.value)]] else [])
  {
    var q := Query(e, encode);
    var url := e.redirectUri + "?" + q;
    assert url[..|e.redirectUri|] == e.redirectUri;
    assert url[|e.redirectUri| + 1..] == q;
    var errorPair := "error=" + encode(ErrorCode(e.kind));
    assert errorPair == "error" + "=" + encode(ErrorCode(e.kind));
    ParsePair("error", encode(ErrorCode(e.kind)));
    if e.state.Some? {
      var statePair := "state=" + encode(e.state.value);
      assert statePair == "state" + "=" + encode(e.state.value);
      ParsePair("state", encode(e.state.value));
      assert q == Strings.Join([errorPair, statePair], '&');
      Strings.SplitJoin([errorPair, statePair], '&');
      assert ParseQuery(q) == [Strings.Split(errorPair, '='), Strings.Split(statePair, '=')];
    } else {
      assert q == Strings.Join([errorPair], '&');
      Strings.SplitJoin([errorPair], '&');
      assert Strings.Split(q, '&') == [errorPair];
      assert ParseQuery(q) == [Strings.Split(errorPair, '=')];
    }
  }

  /**
    What `new` receives comes back to the client: the redirect of
    `NewError(kind, uri, state)` goes to `uri?` and its query carries the
    encoded code of `kind` and, exactly when `state` is present, the encoded state.
   */
  lemma NewErrorRoundTripsState<T>(kind: ErrorKind, uri: string, state: Option<string>,
                                     render: T -> HttpResponse, encode: string -> string)
    requires EscapesDelimiters(encode)
    ensures var resp := RespondTo(Err(NewError(kind, uri, state)), render, encode);
      resp.status == SEE_OTHER && |resp.headers| == 1 && resp.headers[0].0 == "Location" &&
      var url := resp.headers[0].1;
      |url| > |uri| && url[..|uri| + 1] == uri + "?" &&
      var pairs := ParseQuery(url[|uri| + 1..]);
      pairs[0] == ["error", encode(ErrorCode(kind))] &&
      (state.Some? <==> |pairs| == 2) &&
      (state.Some? ==> pairs[1] == ["state", encode(state.value)])
  {
    var e := NewError(kind, uri, state);
    ErrorRedirect(e, render, encode);
    var url := RespondTo(Err(e), render, encode).headers[0].1;
    assert url[..|uri| + 1] == url[..|uri|] + [url[|uri|]];
  }

  /** A successful grant is rendered exactly as the wrapped responder renders itself. */
  lemma OkIsOwnResponse<T>(v: T, render: T -> HttpResponse, encode: string -> string)
    ensures RespondTo(Ok(v), render, encode) == render(v)
  {
  }

  /** `ResponseError::status_code`. */
  function StatusCode(kind: ErrorKind): nat {
    BAD_REQUEST
  }

  /**
    `ResponseError::error_response`: the status code with a JSON body
    `{"error": <code>}`. The `Content-Type: application/json` header that
    actix's `json` adds is not recorded.
   */
  function ErrorResponse(kind: ErrorKind): (r: HttpResponse)
    ensures r.status == 400
    ensures r.body == Json([("error", ErrorCode(kind))])
  {
    HttpResponse(StatusCode(kind), [], Json([("error", ErrorCode(kind))]))
  }

  /** The JSON error body names the kind unambiguously: distinct kinds give distinct responses. */
  lemma ErrorResponseDistinguishesKinds(k1: ErrorKind, k2: ErrorKind)
    requires ErrorResponse(k1) == ErrorResponse(k2)
    ensures k1 == k2
  {
    assert ErrorResponse(k1).body.fields[0].1 == ErrorCode(k1);
    ErrorCodeInjective(k1, k2);
  }
}
