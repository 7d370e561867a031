/**
  `POST /user/register` (miniboss/src/routes/v1/user/register.rs): refuses a
  known email, creates the user (the first user ever is an admin) and sets
  its password with the configured pepper.
 */
module Registration {
  import opened Wrappers
  import opened WebErrors
  import Users
  import PasswordHash

  datatype Request = Request(name: string, email: string, password: string)

  datatype Response = Response(id: string)

  /**
    `register`. The fresh user id and salt that `generate_string` would
    produce are inputs. If hashing fails the user row is already inserted
    and stays, without a credential.
   */
  method Register(dir: Users.Directory, req: Request, pepper: string, p: PasswordHash.Primitives,
                  userId: string, salt: string)
    returns (r: Result<Response, WebError>)
    requires dir.Valid()
    requires Users.GeneratedString(userId, 32) && Users.FindById(dir.users, userId).None?
    requires Users.GeneratedString(salt, 16)
    modifies dir
    ensures dir.Valid()
    ensures dir.permittedScopes == old(dir.permittedScopes)
    ensures Users.FindByEmail(old(dir.users), req.email).Some? ==>
      r == Failure(BadRequest) && dir.users == old(dir.users) && dir.credentials == old(dir.credentials)
    ensures Users.FindByEmail(old(dir.users), req.email).None? ==>
      dir.users == old(dir.users) + [Users.UserRow(Users.User(userId, req.name, req.email, |old(dir.users)| == 0), None)]
    ensures PasswordHash.ValidSalt(salt)
    ensures Users.FindByEmail(old(dir.users), req.email).None? && PasswordHash.Hash(p, req.password, salt, pepper).Success? ==>
      var hash := PasswordHash.Hash(p, req.password, salt, pepper).value;
      r == Success(Response(userId)) &&
      dir.credentials == Users.Upsert(old(dir.credentials), userId, hash, salt) &&
      Users.CredentialsOf(dir.credentials, userId) == [Users.Credential(userId, hash, salt)]
    ensures Users.FindByEmail(old(dir.users), req.email).None? && PasswordHash.Hash(p, req.password, salt, pepper).Failure? ==>
      r == Failure(Internal) && dir.credentials == old(dir.credentials)
    ensures Users.UniqueEmails(old(dir.users)) ==> Users.UniqueEmails(dir.users)
    ensures r.Success? ==> |dir.users| == |old(dir.users)| + 1
  {
    Users.GeneratedSaltIsValid(salt);
    var existing := dir.GetByEmail(req.email);
    if existing.Some? {
      return Failure(BadRequest);
    }
    var all := dir.List();
    var user := dir.New(req.name, req.email, |all| == 0, userId);
    var stored := dir.SetPassword(user, req.password, pepper, p, salt);
    if stored.Failure? {
      return Failure(Internal);
    }
    r := Success(Response(user.userId));
  }
}
