/** The auth resolver (server/src/resolvers/AuthResolver.ts) as a
    transition and a query over the user directory. Password hashing,
    password comparison and token signing are parameters: `hash` stands for
    one salted hashing call, `compare` for checking a password against a
    stored hash, `sign` for issuing a token for a user id. */
module AuthResolver {
  import opened Results
  import opened Seqs
  import opened UserModel

  datatype AuthError = UsernameInUse | EmailInUse | WrongCredentials

  type Token = string

  /** The directory after registration, and the token handed back. */
  datatype Registered = Registered(users: Directory, token: Token)

  /** `users[i]` is the user `findOne({ username })` returns: the first one
      in natural order with that username. */
  predicate IsFirstWithUsername(users: Directory, username: string, i: int) {
    && 0 <= i < |users|
    && users[i].username == username
    && forall j :: 0 <= j < i ==> users[j].username != username
  }

  /** `register`: the username is checked first, then the email; only when
      both are free is one user appended, storing the hash of the password,
      under the id the store allocates. */
  function Register(users: Directory, email: string, username: string, password: string,
                    newId: UserId, hash: string -> string, sign: UserId -> Token): (r: Result<Registered, AuthError>)
    requires !IdTaken(users, newId)
    ensures UsernameTaken(users, username) ==> r == Err(UsernameInUse)
    ensures !UsernameTaken(users, username) && EmailTaken(users, email) ==> r == Err(EmailInUse)
    ensures r.Ok? <==> !UsernameTaken(users, username) && !EmailTaken(users, email)
    ensures r.Ok? ==>
      && |r.value.users| == |users| + 1
      && r.value.users[..|users|] == users
      && r.value.users[|users|] == UserDoc(newId, email, username, hash(password))
      && r.value.token == sign(newId)
  {
    if FirstIndex(users, (u: UserDoc) => u.username == username) != -1 then Err(UsernameInUse)
    else if FirstIndex(users, (u: UserDoc) => u.email == email) != -1 then Err(EmailInUse)
    else
      var user := UserDoc(newId, email, username, hash(password));
      Ok(Registered(users + [user], sign(newId)))
  }

  /** `login`: an unknown username and a wrong password fail with the same
      error; success yields a token for the matched user. The directory is
      only read. */
  function Login(users: Directory, username: string, password: string,
                 compare: (string, string) -> bool, sign: UserId -> Token): (r: Result<Token, AuthError>)
    ensures r.Err? ==> r.error == WrongCredentials
    ensures !UsernameTaken(users, username) ==> r.Err?
    ensures r.Ok? <==> exists i :: IsFirstWithUsername(users, username, i) && compare(password, users[i].password)
    ensures r.Ok? ==> exists i :: IsFirstWithUsername(users, username, i) && r.value == sign(users[i].id)
  {
    var i := FirstIndex(users, (u: UserDoc) => u.username == username);
    if i == -1 then Err(WrongCredentials)
    else if !compare(password, users[i].password) then Err(WrongCredentials)
    else Ok(sign(users[i].id))
  }

  /** Registration keeps ids, usernames and emails unique. */
  lemma RegisterKeepsInvariant(users: Directory, email: string, username: string, password: string,
                               newId: UserId, hash: string -> string, sign: UserId -> Token)
    requires DirectoryInvariant(users)
    requires !IdTaken(users, newId)
    requires Register(users, email, username, password, newId, hash, sign).Ok?
    ensures DirectoryInvariant(Register(users, email, username, password, newId, hash, sign).value.users)
  {
  }

  /** With unique usernames, login succeeds exactly for a user with that
      username whose stored hash matches, and yields that user's token. */
  lemma LoginMatchesTheUser(users: Directory, username: string, password: string,
                            compare: (string, string) -> bool, sign: UserId -> Token, i: nat)
    requires DirectoryInvariant(users)
    requires i < |users| && users[i].username == username
    ensures Login(users, username, password, compare, sign) ==
      if compare(password, users[i].password) then Ok(sign(users[i].id)) else Err(WrongCredentials)
  {
  }

  /** When `compare` accepts every password against its own hash, logging
      in with the credentials just registered yields the token that
      registration returned. */
  lemma RegisteredUserCanLogIn(users: Directory, email: string, username: string, password: string,
                               newId: UserId, hash: string -> string, compare: (string, string) -> bool,
                               sign: UserId -> Token)
    requires !IdTaken(users, newId)
    requires forall p :: compare(p, hash(p))
    requires Register(users, email, username, password, newId, hash, sign).Ok?
    ensures var reg := Register(users, email, username, password, newId, hash, sign).value;
      Login(reg.users, username, password, compare, sign) == Ok(reg.token)
  {
  }
}
