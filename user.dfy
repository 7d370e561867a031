/**
  The user directory (database/src/user.rs) over three tables: `users`,
  `user_credentials` and `user_permitted_scopes`. Each table is a sequence of
  rows in storage order; a query with `fetch_optional` or `fetch_one`
  returns the first matching row.
 */
module Users {
  import opened Wrappers
  import Utf8
  import PasswordHash

  datatype User = User(userId: string, name: string, email: string, isAdmin: bool)

  /**
    A row of `users`: the four columns of `User` and the `password` column
    that `verify_password` reads. `None` is SQL NULL (or a missing column):
    `User::new` names no value for it.
   */
  datatype UserRow = UserRow(user: User, password: Option<string>)

  /** A row of `user_credentials`. */
  datatype Credential = Credential(userId: string, password: string, salt: string)

  /** A row of `user_permitted_scopes`. */
  datatype ScopeRow = ScopeRow(userId: string, scope: string)

  datatype HashingError = Database | BCrypt(error: PasswordHash.BcryptError)

  predicate IsAlphanumeric(c: char) {
    'a' <= c <= 'z' || 'A' <= c <= 'Z' || '0' <= c <= '9'
  }

  /** A value `generate_string(n)` can return: `n` ASCII letters and digits. */
  predicate GeneratedString(s: string, n: nat) {
    |s| == n && forall i :: 0 <= i < |s| ==> IsAlphanumeric(s[i])
  }

  /** The 16-character salt of `set_password` meets the 16-byte precondition of `hash`. */
  lemma GeneratedSaltIsValid(salt: string)
    requires GeneratedString(salt, 16)
    ensures PasswordHash.ValidSalt(salt)
  {
    Utf8.AsciiEncoding(salt);
  }

  // ---------------------------------------------------------------- users

  /** `SELECT * FROM users WHERE user_id = ?`, first match. */
  function FindById(rows: seq<UserRow>, id: string): (r: Option<User>)
    ensures r.None? <==> forall i :: 0 <= i < |rows| ==> rows[i].user.userId != id
    ensures r.Some? ==> r.value.userId == id
    ensures r.Some? ==>
      exists i :: 0 <= i < |rows| && rows[i].user == r.value &&
        (forall j :: 0 <= j < i ==> rows[j].user.userId != id)
  {
    if rows == [] then None
    else if rows[0].user.userId == id then Some(rows[0].user)
    else
      var r := FindById(rows[1..], id);
      assert r.Some? ==>
        exists i :: 1 <= i < |rows| && rows[i].user == r.value &&
          (forall j :: 0 <= j < i ==> rows[j].user.userId != id)
      by {
        if r.Some? {
          var k :| 0 <= k < |rows[1..]| && rows[1..][k].user == r.value &&
            (forall j :: 0 <= j < k ==> rows[1..][j].user.userId != id);
          assert rows[k + 1].user == r.value;
          forall j | 0 <= j < k + 1 ensures rows[j].user.userId != id {
            if j > 0 { assert rows[j] == rows[1..][j - 1]; }
          }
        }
      }
      r
  }

  /** `SELECT * FROM users WHERE email = ?`, first match. */
  function FindByEmail(rows: seq<UserRow>, email: string): (r: Option<User>)
    ensures r.None? <==> forall i :: 0 <= i < |rows| ==> rows[i].user.email != email
    ensures r.Some? ==> r.value.email == email
    ensures r.Some? ==>
      exists i :: 0 <= i < |rows| && rows[i].user == r.value &&
        (forall j :: 0 <= j < i ==> rows[j].user.email != email)
  {
    if rows == [] then None
    else if rows[0].user.email == email then Some(rows[0].user)
    else
      var r := FindByEmail(rows[1..], email);
      assert r.Some? ==>
        exists i :: 1 <= i < |rows| && rows[i].user == r.value &&
          (forall j :: 0 <= j < i ==> rows[j].user.email != email)
      by {
        if r.Some? {
          var k :| 0 <= k < |rows[1..]| && rows[1..][k].user == r.value &&
            (forall j :: 0 <= j < k ==> rows[1..][j].user.email != email);
          assert rows[k + 1].user == r.value;
          forall j | 0 <= j < k + 1 ensures rows[j].user.email != email {
            if j > 0 { assert rows[j] == rows[1..][j - 1]; }
          }
        }
      }
      r
  }

  /**
    `SELECT password FROM users WHERE user_id = ?` with `fetch_one` into a
    `String`: `None` when there is no row or the column is NULL, both of
    which make the query fail.
   */
  function StoredPassword(rows: seq<UserRow>, id: string): Option<string> {
    if rows == [] then None
    else if rows[0].user.userId == id then rows[0].password
    else StoredPassword(rows[1..], id)
  }

  /** The `users` table holds at most one row per user id. */
  ghost predicate UniqueIds(rows: seq<UserRow>) {
    forall i, j :: 0 <= i < j < |rows| ==> rows[i].user.userId != rows[j].user.userId
  }

  /** The `users` table holds at most one row per email. */
  ghost predicate UniqueEmails(rows: seq<UserRow>) {
    forall i, j :: 0 <= i < j < |rows| ==> rows[i].user.email != rows[j].user.email
  }

  // ---------------------------------------------------------- credentials

  /** `SELECT EXISTS(SELECT 1 FROM user_credentials WHERE user_id = ?)`. */
  predicate HasCredential(creds: seq<Credential>, id: string) {
    exists i :: 0 <= i < |creds| && creds[i].userId == id
  }

  /** The rows of `user_credentials` that belong to `id`, in storage order. */
  function CredentialsOf(creds: seq<Credential>, id: string): (r: seq<Credential>)
    ensures forall c :: c in r <==> c in creds && c.userId == id
  {
    if creds == [] then []
    else (if creds[0].userId == id then [creds[0]] else []) + CredentialsOf(creds[1..], id)
  }

  /** `user_credentials` holds at most one row per user id. */
  ghost predicate SingleCredential(creds: seq<Credential>) {
    forall i, j :: 0 <= i < j < |creds| ==> creds[i].userId != creds[j].userId
  }

  /** `UPDATE user_credentials SET password = ?, salt = ? WHERE user_id = ?`. */
  function UpdateCredentials(creds: seq<Credential>, id: string, password: string, salt: string): (r: seq<Credential>)
    ensures |r| == |creds|
    ensures forall i :: 0 <= i < |r| ==> r[i].userId == creds[i].userId
  {
    if creds == [] then []
    else [if creds[0].userId == id then Credential(id, password, salt) else creds[0]]
         + UpdateCredentials(creds[1..], id, password, salt)
  }

  /** The storage step of `set_password`: update the row when there is one, insert otherwise. */
  function Upsert(creds: seq<Credential>, id: string, password: string, salt: string): seq<Credential> {
    if HasCredential(creds, id) then UpdateCredentials(creds, id, password, salt)
    else creds + [Credential(id, password, salt)]
  }

  lemma {:induction false} CredentialsOfAppend(a: seq<Credential>, b: seq<Credential>, id: string)
    ensures CredentialsOf(a + b, id) == CredentialsOf(a, id) + CredentialsOf(b, id)
  {
    if a != [] {
      assert (a + b)[1..] == a[1..] + b;
      CredentialsOfAppend(a[1..], b, id);
    } else {
      assert a + b == b;
    }
  }

  lemma {:induction false} NoRowNoCredentials(creds: seq<Credential>, id: string)
    requires !HasCredential(creds, id)
    ensures CredentialsOf(creds, id) == []
  {
    if creds != [] {
      assert creds[0].userId != id;
      assert !HasCredential(creds[1..], id) by {
        forall i | 0 <= i < |creds[1..]| ensures creds[1..][i].userId != id {
          assert creds[1..][i] == creds[i + 1];
        }
      }
      NoRowNoCredentials(creds[1..], id);
    }
  }

  /** An update for one user id leaves the rows of every other user as they were. */
  lemma {:induction false} UpdateKeepsOthers(creds: seq<Credential>, id: string, password: string, salt: string, other: string)
    requires other != id
    ensures CredentialsOf(UpdateCredentials(creds, id, password, salt), other) == CredentialsOf(creds, other)
  {
    if creds != [] {
      UpdateKeepsOthers(creds[1..], id, password, salt, other);
    }
  }

  /** With a single row for `id`, the update leaves exactly that row, carrying the new values. */
  lemma {:induction false} UpdateRewritesTheRow(creds: seq<Credential>, id: string, password: string, salt: string)
    requires SingleCredential(creds) && HasCredential(creds, id)
    ensures CredentialsOf(UpdateCredentials(creds, id, password, salt), id) == [Credential(id, password, salt)]
  {
    var rest := creds[1..];
    assert SingleCredential(rest) by {
      forall i, j | 0 <= i < j < |rest| ensures rest[i].userId != rest[j].userId {
        assert rest[i] == creds[i + 1] && rest[j] == creds[j + 1];
      }
    }
    if creds[0].userId == id {
      var u := UpdateCredentials(rest, id, password, salt);
      forall c | c in u ensures c.userId != id {
        var k :| 0 <= k < |u| && u[k] == c;
        assert creds[k + 1].userId == rest[k].userId;
      }
      if CredentialsOf(u, id) != [] {
        assert CredentialsOf(u, id)[0] in CredentialsOf(u, id);
      }
    } else {
      var k :| 0 <= k < |creds| && creds[k].userId == id;
      assert rest[k - 1].userId == id;
      UpdateRewritesTheRow(rest, id, password, salt);
    }
  }

  /**
    `set_password`'s storage step is an upsert: afterwards the user has
    exactly one credential row, with the new hash and salt, and every other
    user's rows are unchanged.
   */
  lemma UpsertLeavesOneRow(creds: seq<Credential>, id: string, password: string, salt: string)
    requires SingleCredential(creds)
    ensures SingleCredential(Upsert(creds, id, password, salt))
    ensures CredentialsOf(Upsert(creds, id, password, salt), id) == [Credential(id, password, salt)]
    ensures forall other :: other != id ==>
      CredentialsOf(Upsert(creds, id, password, salt), other) == CredentialsOf(creds, other)
  {
    var r := Upsert(creds, id, password, salt);
    if HasCredential(creds, id) {
      UpdateRewritesTheRow(creds, id, password, salt);
      forall other | other != id
        ensures CredentialsOf(r, other) == CredentialsOf(creds, other)
      {
        UpdateKeepsOthers(creds, id, password, salt, other);
      }
    } else {
      var row := Credential(id, password, salt);
      CredentialsOfAppend(creds, [row], id);
      NoRowNoCredentials(creds, id);
      forall other | other != id
        ensures CredentialsOf(r, other) == CredentialsOf(creds, other)
      {
        CredentialsOfAppend(creds, [row], other);
      }
    }
  }

  /**
    `verify_password`: `Ok(false)` when the user has no credential row;
    otherwise the hash read from the `password` column of `users` is
    checked with `verify`.
   */
  function VerifyPasswordOf(rows: seq<UserRow>, creds: seq<Credential>, id: string,
                            password: string, pepper: string, p: PasswordHash.Primitives): Result<bool, HashingError>
  {
    if !HasCredential(creds, id) then Success(false)
    else match StoredPassword(rows, id)
      case None => Failure(Database)
      case Some(stored) =>
        match PasswordHash.Verify(p, stored, password, pepper)
        case Success(ok) => Success(ok)
        case Failure(e) => Failure(BCrypt(e))
  }

  /** Without a credential row the answer is `false`, whatever the password and whatever bcrypt would say. */
  lemma NoCredentialNoMatch(rows: seq<UserRow>, creds: seq<Credential>, id: string,
                            password: string, pepper: string, p: PasswordHash.Primitives, p': PasswordHash.Primitives)
    requires !HasCredential(creds, id)
    ensures VerifyPasswordOf(rows, creds, id, password, pepper, p) == Success(false)
    ensures VerifyPasswordOf(rows, creds, id, password, pepper, p) == VerifyPasswordOf(rows, creds, id, password, pepper, p')
  {
  }

  /**
    `verify_password` never reads the hash `set_password` stored: two
    credential tables that agree on whether the user has a row give the same
    answer, whatever hash and salt they hold.
   */
  lemma VerifyIgnoresStoredCredential(rows: seq<UserRow>, creds: seq<Credential>, creds': seq<Credential>, id: string,
                                      password: string, pepper: string, p: PasswordHash.Primitives)
    requires HasCredential(creds, id) == HasCredential(creds', id)
    ensures VerifyPasswordOf(rows, creds, id, password, pepper, p) == VerifyPasswordOf(rows, creds', id, password, pepper, p)
  {
  }

  /**
    Consequently, for a user whose `users.password` column is NULL, as
    `User::new` leaves it, `verify_password` fails once a password is set,
    wherever that user's row sits in the table.
   */
  lemma UnsetColumnFailsVerify(before: seq<UserRow>, after: seq<UserRow>, creds: seq<Credential>, u: User,
                               password: string, pepper: string, p: PasswordHash.Primitives)
    requires forall i :: 0 <= i < |before| ==> before[i].user.userId != u.userId
    requires HasCredential(creds, u.userId)
    ensures VerifyPasswordOf(before + [UserRow(u, None)] + after, creds, u.userId, password, pepper, p) == Failure(Database)
  {
    StoredPasswordOfRow(before, u, None, after);
  }

  /** The `password` read for a user is that of the user's first row, with whatever rows follow. */
  lemma {:induction false} StoredPasswordOfRow(before: seq<UserRow>, u: User, password: Option<string>, after: seq<UserRow>)
    requires forall i :: 0 <= i < |before| ==> before[i].user.userId != u.userId
    ensures StoredPassword(before + [UserRow(u, password)] + after, u.userId) == password
  {
    var all := before + [UserRow(u, password)] + after;
    if before == [] {
      assert all[0] == UserRow(u, password);
    } else {
      assert all[0] == before[0];
      assert all[1..] == before[1..] + [UserRow(u, password)] + after;
      StoredPasswordOfRow(before[1..], u, password, after);
    }
  }

  // ------------------------------------------------------ permitted scopes

  /** `SELECT scope FROM user_permitted_scopes WHERE user_id = ?`, in storage order. */
  function ScopesOf(rows: seq<ScopeRow>, id: string): (r: seq<string>)
    ensures forall s :: s in r <==> ScopeRow(id, s) in rows
  {
    if rows == [] then []
    else (if rows[0].userId == id then [rows[0].scope] else []) + ScopesOf(rows[1..], id)
  }

  /** `DELETE FROM user_permitted_scopes WHERE user_id = ? AND scope = ?`. */
  function DeleteScope(rows: seq<ScopeRow>, id: string, scope: string): (r: seq<ScopeRow>)
    ensures forall row :: row in r <==> row in rows && row != ScopeRow(id, scope)
  {
    if rows == [] then []
    else (if rows[0] == ScopeRow(id, scope) then [] else [rows[0]]) + DeleteScope(rows[1..], id, scope)
  }

  /** Deleting a pair that is not there changes nothing. */
  lemma {:induction false} DeleteAbsentIsNoOp(rows: seq<ScopeRow>, id: string, scope: string)
    requires ScopeRow(id, scope) !in rows
    ensures DeleteScope(rows, id, scope) == rows
  {
    if rows != [] {
      assert rows[1..] + [] == rows[1..];
      DeleteAbsentIsNoOp(rows[1..], id, scope);
    }
  }

  /** Deleting a scope of one user leaves every other user's scope list as it was. */
  lemma {:induction false} DeleteKeepsOtherUsers(rows: seq<ScopeRow>, id: string, scope: string, other: string)
    requires other != id
    ensures ScopesOf(DeleteScope(rows, id, scope), other) == ScopesOf(rows, other)
  {
    if rows != [] {
      var head := if rows[0] == ScopeRow(id, scope) then [] else [rows[0]];
      var tail := DeleteScope(rows[1..], id, scope);
      assert DeleteScope(rows, id, scope) == head + tail;
      if head == [] {
        assert head + tail == tail;
      } else {
        assert (head + tail)[0] == rows[0] && (head + tail)[1..] == tail;
      }
      DeleteKeepsOtherUsers(rows[1..], id, scope, other);
    }
  }

  /** For the user itself, only that scope disappears. */
  lemma DeleteRemovesOnlyThatScope(rows: seq<ScopeRow>, id: string, scope: string)
    ensures (set s | s in ScopesOf(DeleteScope(rows, id, scope), id)) == (set s | s in ScopesOf(rows, id)) - {scope}
  {
  }

  lemma {:induction false} ScopesOfAppend(rows: seq<ScopeRow>, row: ScopeRow, id: string)
    ensures ScopesOf(rows + [row], id) == ScopesOf(rows, id) + (if row.userId == id then [row.scope] else [])
  {
    if rows == [] {
      assert rows + [row] == [row];
    } else {
      assert (rows + [row])[1..] == rows[1..] + [row];
      ScopesOfAppend(rows[1..], row, id);
    }
  }

  // ------------------------------------------------------------ the store

  /** The three tables behind `Database`, as used by `User`. */
  class Directory {
    var users: seq<UserRow>
    var credentials: seq<Credential>
    var permittedScopes: seq<ScopeRow>

    ghost predicate Valid()
      reads this
    {
      UniqueIds(users) && SingleCredential(credentials)
    }

    constructor ()
      ensures Valid()
      ensures users == [] && credentials == [] && permittedScopes == []
    {
      users, credentials, permittedScopes := [], [], [];
    }

    /**
      `User::new`: inserts one `users` row with a fresh 32-character id,
      the given name, email and admin flag, and returns those values.
     */
    method New(name: string, email: string, isAdmin: bool, userId: string) returns (u: User)
      requires Valid()
      requires GeneratedString(userId, 32) && FindById(users, userId).None?
      modifies this
      ensures Valid()
      ensures u == User(userId, name, email, isAdmin)
      ensures users == old(users) + [UserRow(u, None)]
      ensures credentials == old(credentials) && permittedScopes == old(permittedScopes)
    {
      u := User(userId, name, email, isAdmin);
      users := users + [UserRow(u, None)];
    }

    /**
      `set_password`: hashes with a fresh 16-character salt first, so a
      hashing error leaves storage untouched; then updates the user's
      credential row or inserts one.
     */
    method SetPassword(user: User, password: string, pepper: string, p: PasswordHash.Primitives, salt: string)
      returns (r: Result<(), HashingError>)
      requires Valid() && GeneratedString(salt, 16)
      modifies this
      ensures Valid()
      ensures users == old(users) && permittedScopes == old(permittedScopes)
      ensures PasswordHash.ValidSalt(salt)
      ensures PasswordHash.Hash(p, password, salt, pepper).Failure? ==>
        r == Failure(BCrypt(PasswordHash.Hash(p, password, salt, pepper).error)) &&
        credentials == old(credentials)
      ensures PasswordHash.Hash(p, password, salt, pepper).Success? ==>
        var hash := PasswordHash.Hash(p, password, salt, pepper).value;
        r == Success(()) &&
        credentials == Upsert(old(credentials), user.userId, hash, salt) &&
        CredentialsOf(credentials, user.userId) == [Credential(user.userId, hash, salt)] &&
        forall other :: other != user.userId ==> CredentialsOf(credentials, other) == CredentialsOf(old(credentials), other)
    {
      GeneratedSaltIsValid(salt);
      var hashed := PasswordHash.Hash(p, password, salt, pepper);
      if hashed.Failure? {
        return Failure(BCrypt(hashed.error));
      }
      UpsertLeavesOneRow(credentials, user.userId, hashed.value, salt);
      var has := HasPassword(user);
      if has {
        credentials := UpdateCredentials(credentials, user.userId, hashed.value, salt);
      } else {
        credentials := credentials + [Credential(user.userId, hashed.value, salt)];
      }
      r := Success(());
    }

    /** `has_password`. */
    method HasPassword(user: User) returns (b: bool)
      ensures b == HasCredential(credentials, user.userId)
    {
      b := HasCredential(credentials, user.userId);
    }

    /** `verify_password`. */
    method VerifyPassword(user: User, password: string, pepper: string, p: PasswordHash.Primitives)
      returns (r: Result<bool, HashingError>)
      ensures r == VerifyPasswordOf(users, credentials, user.userId, password, pepper, p)
      ensures !HasCredential(credentials, user.userId) ==> r == Success(false)
    {
      var has := HasPassword(user);
      if !has {
        return Success(false);
      }
      var stored := StoredPassword(users, user.userId);
      if stored.None? {
        return Failure(Database);
      }
      var verified := PasswordHash.Verify(p, stored.value, password, pepper);
      r := if verified.Success? then Success(verified.value) else Failure(BCrypt(verified.error));
    }

    /** `get_by_id`. */
    method GetById(id: string) returns (r: Option<User>)
      ensures r == FindById(users, id)
    {
      r := FindById(users, id);
    }

    /** `get_by_email`. */
    method GetByEmail(email: string) returns (r: Option<User>)
      ensures r == FindByEmail(users, email)
    {
      r := FindByEmail(users, email);
    }

    /** `list`: every user, in storage order. */
    method List() returns (r: seq<User>)
      ensures |r| == |users|
      ensures forall i :: 0 <= i < |r| ==> r[i] == users[i].user
    {
      r := seq(|users|, i requires 0 <= i < |users| reads this => users[i].user);
    }

    /** `list_permitted_scopes`: the scopes recorded for this user id, and only those. */
    method ListPermittedScopes(user: User) returns (r: seq<string>)
      ensures r == ScopesOf(permittedScopes, user.userId)
      ensures forall s :: s in r <==> ScopeRow(user.userId, s) in permittedScopes
    {
      r := ScopesOf(permittedScopes, user.userId);
    }

    /** `remove_permitted_scope`: deletes the (user, scope) rows and nothing else. */
    method RemovePermittedScope(user: User, scope: string)
      requires Valid()
      modifies this
      ensures Valid()
      ensures users == old(users) && credentials == old(credentials)
      ensures permittedScopes == DeleteScope(old(permittedScopes), user.userId, scope)
      ensures ScopeRow(user.userId, scope) !in old(permittedScopes) ==> permittedScopes == old(permittedScopes)
      ensures forall other :: other != user.userId ==>
        ScopesOf(permittedScopes, other) == ScopesOf(old(permittedScopes), other)
    {
      if ScopeRow(user.userId, scope) !in permittedScopes {
        DeleteAbsentIsNoOp(permittedScopes, user.userId, scope);
      }
      forall other | other != user.userId
        ensures ScopesOf(DeleteScope(permittedScopes, user.userId, scope), other) == ScopesOf(permittedScopes, other)
      {
        DeleteKeepsOtherUsers(permittedScopes, user.userId, scope, other);
      }
      permittedScopes := DeleteScope(permittedScopes, user.userId, scope);
    }

    /** `grant_permitted_scope`: inserts one (user, scope) row. */
    method GrantPermittedScope(user: User, scope: string)
      requires Valid()
      modifies this
      ensures Valid()
      ensures users == old(users) && credentials == old(credentials)
      ensures permittedScopes == old(permittedScopes) + [ScopeRow(user.userId, scope)]
      ensures ScopesOf(permittedScopes, user.userId) == ScopesOf(old(permittedScopes), user.userId) + [scope]
      ensures forall other :: other != user.userId ==>
        ScopesOf(permittedScopes, other) == ScopesOf(old(permittedScopes), other)
    {
      var row := ScopeRow(user.userId, scope);
      ScopesOfAppend(permittedScopes, row, user.userId);
      forall other | other != user.userId
        ensures ScopesOf(permittedScopes + [row], other) == ScopesOf(permittedScopes, other)
      {
        ScopesOfAppend(permittedScopes, row, other);
      }
      permittedScopes := permittedScopes + [row];
    }
  }
}
