# miniboss authentication core in Dafny

miniboss is an OAuth2 / OpenID Connect identity server. This project models
the core of its authentication logic:

- **password hashing (`database/src/hash.rs`):** the password and the pepper are pre-hashed with SHA-512/256 and encoded in base64. The result is then hashed with bcrypt at cost 10, using a 16-byte salt, and printed in bcrypt's `2b` format.
- **the user directory (`database/src/user.rs`):** three tables: `users`, `user_credentials` and `user_permitted_scopes`. Users are created, looked up, listed and given passwords, and their permitted scopes are granted and removed.
- **the OAuth2 login step (`routes/v1/oauth/login.rs`):** binds a user, named by email and password, to a pending authorization. A non-admin user must first be permitted every requested scope, or the scope must be one of the OIDC scopes `openid`, `profile` and `email`.
- **bearer-token authentication of API requests (`routes/auth.rs`):** takes the token from the `Authorization` header, or failing that from the `Authorization` cookie. The token is accepted when it is known, has not expired, and its user still exists.
- **user registration (`routes/v1/user/register.rs`):** the first user ever registered becomes an admin.
- **OAuth2 error reporting (`routes/v1/oauth/mod.rs`):** the error codes of section 4.1.2.1 and section 5.2 of RFC 6749. An authorization error is sent back as a 303 redirect whose query carries `error` and `state`. Other errors get a 400 JSON body.
- **the lookup of the internal OAuth2 client (`routes/v1/clients/internal.rs`).**

How the model is built:

- **Storage:** SQL tables are sequences of rows in storage order. A query that fetches one row returns the first matching row.
- **Stateful parts:** the user directory and the pending-authorization table are classes. Their methods change fields, and their contracts relate the new state to the old.
- **Pure parts:** the request handling is pure functions, with lemmas about them. The handlers that write storage (`login`, `register`) are methods proved against those functions.
- **Crypto primitives:** SHA-512/256, base64, bcrypt's `hash_with_salt` and bcrypt's `verify` are function parameters (`PasswordHash.Primitives`).
  - What the model assumes of bcrypt is stated once, as the hypothesis `PasswordHash.Sound`: a successful hash records its cost, and `verify` accepts the password it was made from.
  - bcrypt's output format (`$2b$10$...`) is modelled concretely.
- **Strings and bytes:** Rust strings are sequences of characters. Where the code works on bytes (`as_bytes`, `HeaderValue::to_str`), the model uses an explicit UTF-8 encoder.

Files: `wrappers.dfy`, `strings.dfy`, `utf8.dfy`, `hash.dfy`, `user.dfy`,
`oauth2_store.dfy`, `web_error.dfy`, `login.dfy`, `auth.dfy`, `register.dfy`,
`oauth_error.dfy`, `internal.dfy`.

## Model

| member | source | states |
|---|---|---|
| PasswordHash.Update | database/src/hash.rs:20-21 | definition: `hasher.update` appends the UTF-8 bytes of its argument; its property is `PasswordHash.UpdateConcatenation` |
| PasswordHash.UpdateConcatenation | database/src/hash.rs:20-21 | updating with `a` and then `b` is the same as one update with `a ++ b` |
| PasswordHash.PreHash | database/src/hash.rs:18-31 | definition: base64 of SHA-512/256 after updating with the input, then the pepper (also hash.rs:43-49); its properties are `PasswordHash.PreHashOfConcatenation` and `PasswordHash.PreHashDependsOnlyOnConcatenation` |
| PasswordHash.Hash | database/src/hash.rs:17-35 | definition: bcrypt at cost 10 of the pre-hash with the salt's bytes, printed in format 2b; the 16-byte salt check is its precondition; its properties are `PasswordHash.HashIsTwoBCostTen`, `PasswordHash.HashDependsOnlyOnConcatenation` and `PasswordHash.HashVerifyRoundTrip` |
| PasswordHash.Verify | database/src/hash.rs:42-54 | definition: bcrypt verify of the pre-hash against the stored hash; its properties are `PasswordHash.HashVerifyRoundTrip` and `PasswordHash.VerifyAcceptsSameConcatenation` |
| PasswordHash.PreHashOfConcatenation | database/src/hash.rs:18-31 | the pre-hash is base64 of SHA-512/256 over the UTF-8 encoding of `input ++ pepper` |
| PasswordHash.PreHashDependsOnlyOnConcatenation | database/src/hash.rs:18-31 | two (input, pepper) pairs with equal concatenations have the same pre-hash |
| PasswordHash.HashDependsOnlyOnConcatenation | database/src/hash.rs:17-35 | `hash` gives the same result for equal concatenations of input and pepper under the same salt |
| PasswordHash.HashIsTwoBCostTen | database/src/hash.rs:4-32 | a successful `hash` starts with `$2b$10$`: version 2b, cost 10 |
| PasswordHash.HashVerifyRoundTrip | database/src/hash.rs:17-54 | `verify` accepts what `hash` produced for the same input and pepper |
| PasswordHash.VerifyAcceptsSameConcatenation | database/src/hash.rs:37-54 | `verify` accepts any input and pepper whose concatenation equals the hashed one; only the concatenation is checked |
| Utf8.EncodeAppend | database/src/hash.rs:20-21 | the UTF-8 encoding of a concatenation is the concatenation of the encodings |
| Utf8.AsciiEncoding | database/src/hash.rs:23-26 | an ASCII string encodes to one byte per character, equal to its code |
| Utf8.NonAsciiIsLonger | database/src/hash.rs:23-26 | a string with a non-ASCII character encodes to more bytes than it has characters, so a 16-character salt of that kind is rejected |
| Users.GeneratedSaltIsValid | database/src/user.rs:50-51 | a 16-character alphanumeric salt from `generate_string(16)` meets `hash`'s 16-byte salt requirement, so, assuming `generate_string` draws ASCII letters and digits as `generate_id` does (dal/src/mysql/mod.rs:72-74), `set_password` never panics |
| Users.FindById | database/src/user.rs:94-99 | `None` exactly when no row has that id; otherwise the first row with that id |
| Users.FindByEmail | database/src/user.rs:101-106 | `None` exactly when no row has that email; otherwise the first row with that email |
| Users.StoredPassword | database/src/user.rs:86-89 | definition: the `password` column of the first `users` row with that id, `None` when that row or value is absent; its property is `Users.StoredPasswordOfRow` |
| Users.HasCredential | database/src/user.rs:72-79 | definition: some credential row carries the user id; its property is `Users.NoRowNoCredentials` |
| Users.Upsert | database/src/user.rs:53-67 | definition: UPDATE when the user has a credential row, INSERT otherwise; its property is `Users.UpsertLeavesOneRow` |
| Users.VerifyPasswordOf | database/src/user.rs:81-92 | definition: `Ok(false)` without a credential row, a database error when `users.password` is absent, else bcrypt verify against it; its properties are `Users.NoCredentialNoMatch`, `Users.VerifyIgnoresStoredCredential` and `Users.UnsetColumnFailsVerify` |
| Users.CredentialsOf | database/src/user.rs:72-79 | the credential rows of a user are exactly the rows with that user id |
| Users.UpdateCredentials | database/src/user.rs:54-59 | the UPDATE keeps the number of rows and the user id of every row |
| Users.UpdateKeepsOthers | database/src/user.rs:54-59 | the UPDATE leaves the rows of every other user as they were |
| Users.UpdateRewritesTheRow | database/src/user.rs:54-59 | under at most one row per user, the UPDATE leaves that user exactly one row, holding the new hash and salt |
| Users.UpsertLeavesOneRow | database/src/user.rs:53-67 | update-or-insert keeps at most one credential row per user, leaves this user exactly the new row, and leaves other users unchanged |
| Users.CredentialsOfAppend | database/src/user.rs:61-66 | after an INSERT, a user's rows are the old rows plus the inserted row when the ids match |
| Users.NoRowNoCredentials | database/src/user.rs:72-79 | when `has_password` is false the user has no credential rows |
| Users.NoCredentialNoMatch | database/src/user.rs:81-84 | `verify_password` is `Ok(false)` for a user without credentials, whatever the password and bcrypt |
| Users.VerifyIgnoresStoredCredential | database/src/user.rs:81-92 | `verify_password` depends only on whether a credential row exists, never on the hash stored in it (it reads `users.password`) |
| Users.UnsetColumnFailsVerify | database/src/user.rs:81-92 | for any user whose `users` row has no `password` value (as `User::new` leaves it, under the column-default assumption in "## Left out"), wherever that row sits among the others, `verify_password` fails with a database error once a password is set |
| Users.StoredPasswordOfRow | database/src/user.rs:86-89 | the `password` value read for a user is the one in that user's first row, whatever rows come before (of other users) or after |
| Users.ScopesOf | database/src/user.rs:114-121 | a scope is listed for a user exactly when a (user, scope) row exists |
| Users.DeleteScope | database/src/user.rs:123-131 | the DELETE removes exactly the rows equal to (user, scope) |
| Users.DeleteAbsentIsNoOp | database/src/user.rs:123-131 | deleting a pair that is not there changes nothing |
| Users.DeleteKeepsOtherUsers | database/src/user.rs:123-131 | deleting leaves every other user's scope list unchanged, in order |
| Users.DeleteRemovesOnlyThatScope | database/src/user.rs:123-131 | for the user itself, the set of scopes loses exactly that scope |
| Users.ScopesOfAppend | database/src/user.rs:133-141 | after the INSERT, the user's scopes gain the new scope at the end, and other users' scopes are unchanged |
| Users.Directory.New | database/src/user.rs:25-47 | appends one `users` row with the fresh id, name, email and admin flag, and returns that user; the other tables are unchanged and the ids stay unique |
| Users.Directory.SetPassword | database/src/user.rs:49-70 | a hashing error changes nothing; otherwise update-or-insert leaves the user exactly one credential row with the new hash and salt, and other users are untouched |
| Users.Directory.HasPassword | database/src/user.rs:72-79 | true exactly when a credential row exists for the user |
| Users.Directory.VerifyPassword | database/src/user.rs:81-92 | computes `Users.VerifyPasswordOf` on the current tables: `Ok(false)` without a credential row, else `verify` against the stored `users.password` |
| Users.Directory.GetById | database/src/user.rs:94-99 | the first user with that id, or `None` exactly when there is none |
| Users.Directory.GetByEmail | database/src/user.rs:101-106 | the first user with that email, or `None` exactly when there is none |
| Users.Directory.List | database/src/user.rs:108-112 | every user, in storage order |
| Users.Directory.ListPermittedScopes | database/src/user.rs:114-121 | the user's scopes in storage order: a scope is listed exactly when its row exists |
| Users.Directory.RemovePermittedScope | database/src/user.rs:123-131 | deletes exactly the (user, scope) rows; deleting an absent pair is a no-op; other users' scopes are unchanged |
| Users.Directory.GrantPermittedScope | database/src/user.rs:133-141 | appends one (user, scope) row; the user's list gains the scope and other users' lists are unchanged |
| OAuth2Store.PendingAuthorizations.GetById | miniboss/src/routes/v1/oauth/login.rs:26-28 | the pending authorization with that id, or `None` exactly when there is none |
| OAuth2Store.PendingAuthorizations.SetUserId | miniboss/src/routes/v1/oauth/login.rs:64-67 | on success this authorization's user id is set and every other row is unchanged; on failure nothing changes |
| Strings.Split | miniboss/src/routes/v1/oauth/login.rs:42 | `split` gives at least one piece, and no piece holds the separator |
| Strings.JoinSplit | miniboss/src/routes/v1/oauth/login.rs:42 | joining the pieces of a split with the separator gives the string back |
| Strings.SplitJoin | miniboss/src/routes/v1/oauth/login.rs:42 | splitting a join of separator-free pieces gives the pieces back |
| Login.ScopeSet | miniboss/src/routes/v1/oauth/login.rs:39-43 | no `scope` gives the empty set; no member contains a space |
| Login.ScopeSetOfTokens | miniboss/src/routes/v1/oauth/login.rs:39-43 | the scope set of space-joined tokens is exactly the set of those tokens; duplicates collapse |
| Login.EmptyPieceRequested | miniboss/src/routes/v1/oauth/login.rs:42 | an empty `scope`, or one ending in a space, requests the empty-named scope |
| Login.AllowedScopes | miniboss/src/routes/v1/oauth/login.rs:46-53 | a scope is allowed exactly when it is permitted for the user or is one of `openid`, `profile`, `email` |
| Login.OidcScopes | miniboss/src/routes/v1/oauth/login.rs:74-80 | definition: `openid`, `profile` and `email`; used through `Login.AllowedScopes` |
| Login.DisallowedScopes | miniboss/src/routes/v1/oauth/login.rs:55-57 | a scope is disallowed exactly when it is requested, not permitted for the user, and not an OIDC scope |
| Login.Decide | miniboss/src/routes/v1/oauth/login.rs:26-62 | definition: the checks of `login` in order (authorization, email, password, scope policy); its properties are the lemmas `Login.UnknownAuthorizationIsNotFound` through `Login.BindingIsTheEmailUser`, and `Login.Login` is proved against it |
| Login.UnknownAuthorizationIsNotFound | miniboss/src/routes/v1/oauth/login.rs:26-28 | an unknown authorization id is `NotFound`, whatever the user tables hold |
| Login.BadCredentialsAreUnauthorized | miniboss/src/routes/v1/oauth/login.rs:30-35 | an unknown email and a wrong password both give `Unauthorized` |
| Login.AdminSkipsScopeCheck | miniboss/src/routes/v1/oauth/login.rs:45 | an admin with the right password is bound, whatever scopes are requested |
| Login.ForbiddenIffScopeNotAllowed | miniboss/src/routes/v1/oauth/login.rs:45-62 | a non-admin with the right password is `Forbidden` exactly when some requested scope is neither permitted nor OIDC; otherwise they are bound |
| Login.BindingIsTheEmailUser | miniboss/src/routes/v1/oauth/login.rs:26-67 | a binding names the requested authorization and the user found by email, whose password verified |
| Login.CustomScopeExample | miniboss/src/routes/v1/oauth/login.rs:39-61 | `openid profile custom:scope` is allowed when `custom:scope` is permitted; without it, exactly `custom:scope` is disallowed |
| Login.Login | miniboss/src/routes/v1/oauth/login.rs:21-72 | every rejection leaves the pending authorizations unchanged; a binding either sets the user id and answers `status: true`, or is `BadRequest` with nothing changed |
| Authentication.HeaderToStr | miniboss/src/routes/auth.rs:70-73 | `to_str` succeeds exactly when every byte is visible ASCII or a tab, and then the text encodes back to the same bytes |
| Authentication.RemoveAll | miniboss/src/routes/auth.rs:76 | `replace(pat, "")` removes non-overlapping occurrences left to right and never lengthens the text; what is removed is stated by `Authentication.RemoveAllAbsent`, `Authentication.BearerTokenStripped` and `Authentication.EveryBearerRemoved` |
| Authentication.RemoveAllAbsent | miniboss/src/routes/auth.rs:76 | text without the pattern is returned unchanged |
| Authentication.GetAuthorizationToken | miniboss/src/routes/auth.rs:69-88 | fails exactly when neither the header nor the cookie is a usable `Bearer ` value, and every failure is `Unauthorized` |
| Authentication.HeaderTakesPrecedence | miniboss/src/routes/auth.rs:75-78 | a usable header decides the token, whatever the cookie holds |
| Authentication.CookieFallback | miniboss/src/routes/auth.rs:80-87 | without a usable header, a `Bearer ` cookie gives its stripped value and any other cookie gives `Unauthorized` |
| Authentication.BearerTokenStripped | miniboss/src/routes/auth.rs:76 | `Bearer <t>` gives `t` when `t` holds no `Bearer ` |
| Authentication.RemoveAllCopiesText | miniboss/src/routes/auth.rs:76 | text that cannot start an occurrence is copied through `replace` unchanged |
| Authentication.EveryOccurrenceRemoved | miniboss/src/routes/auth.rs:76 | every occurrence is removed, not only the prefix: `Bearer <a>Bearer <b>` gives `<a><b>` |
| Authentication.EveryBearerRemoved | miniboss/src/routes/auth.rs:76 | for any number of pieces without a `B`, `Bearer <a1>…Bearer <an>` gives `<a1>…<an>` |
| Authentication.Authenticate | miniboss/src/routes/auth.rs:32-54 | succeeds exactly when the token is known, `now <= expires_at`, and its user exists; the result is that user and token; every failure is `Unauthorized` |
| Authentication.ExpiryBoundary | miniboss/src/routes/auth.rs:37-38 | a token is accepted in the second it expires and refused one second later |
| Authentication.HasScope | miniboss/src/routes/auth.rs:60-62 | definition: membership in the token's scopes; its property is `Authentication.HasScopeIsTokenScope` |
| Authentication.Scopes | miniboss/src/routes/auth.rs:64-66 | definition: the token's scopes; its property is `Authentication.HasScopeIsTokenScope` |
| Authentication.HasScopeIsTokenScope | miniboss/src/routes/auth.rs:60-66 | `has_scope` and `scopes` are membership in, and equality with, the presented token's scopes |
| Registration.Register | miniboss/src/routes/v1/user/register.rs:19-43 | a known email is `BadRequest` and nothing changes; otherwise one user is appended (admin exactly when no user existed) and the user gets exactly one credential row, or `Internal` on a hashing error with the user row kept; unique emails and unique ids are preserved |
| OAuth2Errors.ErrorCode | miniboss/src/routes/v1/oauth/mod.rs:99-116 | definition: the Display string of each kind; its properties are `OAuth2Errors.ParseErrorCodeOfErrorCode`, `OAuth2Errors.ErrorCodeInjective` and `OAuth2Errors.ErrorCodesUseAllowedCharacters` |
| OAuth2Errors.ParseErrorCodeOfErrorCode | miniboss/src/routes/v1/oauth/mod.rs:99-116 | every kind's code is read back as that kind |
| OAuth2Errors.ErrorCodeOfParse | miniboss/src/routes/v1/oauth/mod.rs:99-116 | every code that is read back is the code of the kind it names |
| OAuth2Errors.ErrorCodeInjective | miniboss/src/routes/v1/oauth/mod.rs:99-116 | distinct kinds display distinct codes |
| OAuth2Errors.ErrorCodesUseAllowedCharacters | miniboss/src/routes/v1/oauth/mod.rs:104-113 | every code is non-empty and uses only the characters section 4.1.2.1 of RFC 6749 allows in `error` |
| OAuth2Errors.NewError | miniboss/src/routes/v1/oauth/mod.rs:72-84 | definition: `new` stores the kind, the redirect URI and the state; its property is `OAuth2Errors.NewErrorRoundTripsState` |
| OAuth2Errors.NewErrorRoundTripsState | miniboss/src/routes/v1/oauth/mod.rs:36-84 | the redirect of an error built by `new` goes to the given URI followed by `?`, and its query carries the encoded code and, exactly when a state was given, the encoded state |
| OAuth2Errors.Query | miniboss/src/routes/v1/oauth/mod.rs:43-54 | definition: `error=<encoded code>`, then `&state=<encoded state>` when a state is present; its property is `OAuth2Errors.ErrorRedirect` |
| OAuth2Errors.RespondTo | miniboss/src/routes/v1/oauth/mod.rs:39-63 | definition: `Ok` renders itself, `Err` is a 303 to `redirect_uri?query`; its properties are `OAuth2Errors.OkIsOwnResponse` and `OAuth2Errors.ErrorRedirect` |
| OAuth2Errors.ParsePair | miniboss/src/routes/v1/oauth/mod.rs:50-54 | a `name=value` pair without `=` in its parts splits back into name and value |
| OAuth2Errors.ErrorRedirect | miniboss/src/routes/v1/oauth/mod.rs:42-60 | an error becomes a 303 whose only header is Location = redirect URI, `?`, then a query that splits back into the pair `error` = the encoded code and, exactly when a state was given, the pair `state` = the encoded state; no decoding law for the encoder is assumed |
| OAuth2Errors.OkIsOwnResponse | miniboss/src/routes/v1/oauth/mod.rs:41 | a non-error result is rendered as its own response |
| OAuth2Errors.StatusCode | miniboss/src/routes/v1/oauth/mod.rs:119-121 | definition: 400 for every kind; used through `OAuth2Errors.ErrorResponse` |
| OAuth2Errors.ErrorResponse | miniboss/src/routes/v1/oauth/mod.rs:118-133 | status 400 with the JSON body `{"error": <code>}`; the Content-Type header actix adds is not recorded |
| OAuth2Errors.ErrorResponseDistinguishesKinds | miniboss/src/routes/v1/oauth/mod.rs:118-133 | distinct kinds give distinct error responses |
| InternalClient.FindInternal | miniboss/src/routes/v1/clients/internal.rs:14-17 | `None` exactly when no client is internal; otherwise the index of the first internal client |
| InternalClient.Internal | miniboss/src/routes/v1/clients/internal.rs:13-24 | `InvalidInternalState` exactly when no client is internal; otherwise the client id and redirect URI of the first internal client |
| InternalClient.FirstInternalWins | miniboss/src/routes/v1/clients/internal.rs:17 | with several internal clients, the one listed first is returned; none is rejected as a duplicate |

## Left out

- **Database errors:** every `?` on a database call can fail. The model only follows the paths where the database succeeds. The exceptions are `set_user_id`, which may fail nondeterministically, and the failure of the `users.password` query in `verify_password`.
- **Where `set_user_id` fails:** it lives in `database::oauth2_client`, which is not part of this model. Its failure is a nondeterministic choice, and the handler turns it into `BadRequest`.
- **The other operations of that module:** `database::oauth2_client` is only represented by the fields the handlers read and two operations (`get_by_id` and `set_user_id` of pending authorizations), plus the token table as a map and the client list as a sequence.
- **Randomness:** `generate_string` is random. The id and salt it would return are parameters, of length 32 or 16. Its body is not part of this model; that it draws ASCII letters and digits is an assumption taken from `generate_id` (dal/src/mysql/mod.rs:72-74), which samples `Alphanumeric`. `Users.GeneratedSaltIsValid`, and so the absence of the salt panic, rests on that assumption.
- **The fresh id of `User::new`:** the precondition that the id is not already in `users` stands in for the unlikelihood of a collision. The source does not check for one.
- **SQL collation:** every `WHERE col = ?` (on `user_id`, `email` and `scope`) is modelled as exact string equality. The database's collation is not part of this model: a case-insensitive collation (MySQL's default) or one that ignores trailing spaces would make the email lookups of `login` and `register` and the scope DELETE match more rows than the model says.
- **The clock:** in `from_request`, the current time is the parameter `now`.
- **Crypto internals:** SHA-512/256, base64 and bcrypt are not modelled. They are uninterpreted functions; the only thing assumed of bcrypt is `PasswordHash.Sound`. Timing and constant-time comparison are not modelled either.
  - PasswordHash.Hash: the source panics when the salt is not 16 bytes. The model makes that a precondition, which the callers are proved to meet (`Users.GeneratedSaltIsValid`).
- **Query-string escaping:** serde_qs's percent-encoding is an abstract encoder parameter. `OAuth2Errors.ErrorRedirect` assumes only that the encoder escapes `&` and `=`.
- **Concepts the handlers do not inspect:** actix-web request plumbing, JSON (de)serialisation, route configuration (`Router::configure`), `AppData`, and the configuration and device modules are not modelled.
- **Other flows:** the other OAuth2 endpoints (authorize, token, token info, authorization info) issue codes and tokens. They are not part of this model.
- **Concurrency:** concurrent requests could interleave between `register`'s email check and its insert. The handlers are modelled as running alone.
- **Errors in `verify_password`:** the error type `WebError` and its conversions come from `routes::error`, which is not part of this model. A `HashingError` inside `login` is modelled as `Internal`, and so is a hashing error inside `register`.
- **The `password` column of `users`:** `verify_password` reads `users.password`, while `set_password` writes `user_credentials.password`, and `User::new` names no value for `users.password`. The model follows the code as written: the lemmas `Users.VerifyIgnoresStoredCredential` and `Users.UnsetColumnFailsVerify` show the consequence. The schema is not part of this model. `Users.Directory.New` records the column as absent (`None`): this assumes that `users.password`, if it exists, has no non-NULL default, since the INSERT at database/src/user.rs:33 names no value for it. With a non-NULL default such as `''`, `fetch_one` would return that string, and the failure would come from bcrypt's `verify` rather than from the database.
