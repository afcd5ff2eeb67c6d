/**
 * The JSON-file user registry of app/routes/auth.py: registration, password
 * hashing with its 72-character cut, `authenticate_user`, the token route and
 * `get_current_user`. `users_db` is a map from user name to record. The
 * password hasher, its verifier and the JWT codec are cryptographic library
 * calls and appear as function parameters: the hasher as `hash`, the
 * verifier as `verify`, and a decoded token as a `Token` value.
 */
module Auth {
  import opened Util

  /** The longest password registration accepts, and the length the hasher
      is given at most. */
  const MaxPasswordLength: nat := 72

  const InvalidCredentialsText := "Invalid credentials."

  /** One `users_db` record. */
  datatype Account = Account(username: string, hashedPassword: string, createdAt: string)

  type UsersDb = map<string, Account>

  /** Every record is stored under its own `username`. */
  predicate KeyedByName(users: UsersDb) {
    forall k :: k in users ==> users[k].username == k
  }

  function Min(a: nat, b: nat): nat {
    if a <= b then a else b
  }

  /** `get_password_hash`: the password is cut to its first 72 characters
      before it reaches the hasher. */
  function PasswordHash(hash: string -> string, password: string): (h: string)
    ensures |password| <= MaxPasswordLength ==> h == hash(password)
  {
    assert |password| <= MaxPasswordLength ==> password[..Min(MaxPasswordLength, |password|)] == password;
    hash(password[..Min(MaxPasswordLength, |password|)])
  }

  /** Passwords that agree on their first 72 characters hash alike, whatever
      follows. */
  lemma PasswordHashIgnoresTail(hash: string -> string, p: string, q: string)
    requires |p| >= MaxPasswordLength && |q| >= MaxPasswordLength
    requires p[..MaxPasswordLength] == q[..MaxPasswordLength]
    ensures PasswordHash(hash, p) == PasswordHash(hash, q)
  {
  }

  /** `register`: user name and password are stripped; an empty one, a
      password over 72 characters and a taken user name are refused (in that
      order) and `users_db` is unchanged; otherwise exactly one record is
      added, under the stripped name. */
  function Register(users: UsersDb, username: string, password: string,
                    hash: string -> string, now: string): (r: (Result<string, HttpError>, UsersDb))
    ensures var u := Strip(username);
            var p := Strip(password);
            && (r.0.Ok? <==> u != "" && p != "" && |p| <= MaxPasswordLength && u !in users)
            && (r.0.Err? ==> r.0.error.status == 400 && r.1 == users)
            && (r.0.Ok? ==> && r.1.Keys == users.Keys + {u}
                            && r.1[u] == Account(u, hash(p), now)
                            && forall k :: k in users ==> r.1[k] == users[k])
  {
    var u := Strip(username);
    var p := Strip(password);
    if u == "" || p == "" then (Err(HttpError(400, "Username and password are required.")), users)
    else if |p| > MaxPasswordLength then (Err(HttpError(400, "Password too long (max 72 characters).")), users)
    else if u in users then (Err(HttpError(400, "Username already exists.")), users)
    else (Ok("User '" + u + "' registered successfully."), users[u := Account(u, PasswordHash(hash, p), now)])
  }

  /** Registration keeps every record under its own name. */
  lemma RegisterKeepsKeyedByName(users: UsersDb, username: string, password: string,
                                 hash: string -> string, now: string)
    requires KeyedByName(users)
    ensures KeyedByName(Register(users, username, password, hash, now).1)
  {
  }

  /** Registering the same name twice: the second attempt fails. */
  lemma RegisterTwiceFails(users: UsersDb, username: string, password: string, other: string,
                           hash: string -> string, now: string, later: string)
    requires Register(users, username, password, hash, now).0.Ok?
    ensures var users' := Register(users, username, password, hash, now).1;
            Register(users', username, other, hash, later) ==
              (if Strip(other) == "" then Err(HttpError(400, "Username and password are required."))
               else if |Strip(other)| > MaxPasswordLength then Err(HttpError(400, "Password too long (max 72 characters)."))
               else Err(HttpError(400, "Username already exists.")), users')
  {
  }

  /** `authenticate_user`: the record of a known user whose password
      verifies against the stored hash, and nothing otherwise. */
  function Authenticate(users: UsersDb, username: string, password: string,
                        verify: (string, string) -> bool): (r: Option<Account>)
    ensures r.None? <==> username !in users || !verify(password, users[username].hashedPassword)
    ensures r.Some? ==> username in users && r.value == users[username]
  {
    if username !in users then None
    else
      var user := users[username];
      if !verify(password, user.hashedPassword) then None else Some(user)
  }

  /** `login`, up to the token: the subject the token is issued for, which
      is the authenticated record's `username`. */
  function Login(users: UsersDb, username: string, password: string,
                 verify: (string, string) -> bool): (r: Result<string, HttpError>)
    ensures r.Err? <==> Authenticate(users, username, password, verify).None?
    ensures r.Err? ==> r.error == HttpError(401, "Invalid username or password.")
    ensures r.Ok? ==> r.value == users[username].username
  {
    match Authenticate(users, username, password, verify)
    case None => Err(HttpError(401, "Invalid username or password."))
    case Some(user) => Ok(user.username)
  }

  /** What `jwt.decode` yields: a decode failure (bad signature, expired),
      or the payload with its optional `sub` claim. */
  datatype Token = Undecodable | Claims(sub: Option<string>)

  /** `get_current_user`: a token that does not decode, carries no subject,
      or names no registered user is a 401; otherwise the subject's record. */
  function CurrentUser(users: UsersDb, token: Token): (r: Result<Account, HttpError>)
    ensures r.Ok? <==> token.Claims? && token.sub.Some? && token.sub.value in users
    ensures r.Ok? ==> r.value == users[token.sub.value]
    ensures r.Err? ==> r.error == HttpError(401, InvalidCredentialsText)
  {
    match token
    case Undecodable => Err(HttpError(401, InvalidCredentialsText))
    case Claims(sub) =>
      if sub.None? || sub.value !in users then Err(HttpError(401, InvalidCredentialsText))
      else Ok(users[sub.value])
  }

  /** A verifier that accepts exactly the password a hash was made from. */
  ghost predicate Faithful(hash: string -> string, verify: (string, string) -> bool) {
    forall p, q :: verify(p, hash(q)) <==> p == q
  }

  /** The round trip: after a successful registration, logging in with the
      stripped name and password issues a token for that name, and the token
      leads `get_current_user` back to the new record. */
  lemma RegisterLoginRoundTrip(users: UsersDb, username: string, password: string,
                               hash: string -> string, verify: (string, string) -> bool, now: string)
    requires Faithful(hash, verify)
    requires Register(users, username, password, hash, now).0.Ok?
    ensures var users' := Register(users, username, password, hash, now).1;
            var u := Strip(username);
            && Login(users', u, Strip(password), verify) == Ok(u)
            && CurrentUser(users', Claims(Some(u))) == Ok(Account(u, hash(Strip(password)), now))
  {
    var users' := Register(users, username, password, hash, now).1;
    var p := Strip(password);
    assert verify(p, hash(p));
  }

  /** Registration stores the hash of the stripped password but login
      verifies the password as typed: a password with surrounding white
      space is refused at login even when typed exactly as at registration. */
  lemma LoginWithUnstrippedPasswordFails(users: UsersDb, username: string, password: string,
                                         hash: string -> string, verify: (string, string) -> bool, now: string)
    requires Faithful(hash, verify)
    requires Register(users, username, password, hash, now).0.Ok?
    requires password != Strip(password)
    ensures Login(Register(users, username, password, hash, now).1, Strip(username), password, verify).Err?
  {
    var p := Strip(password);
    assert !verify(password, hash(p));
  }

  /** Only a registered name gets past `get_current_user`, and the record
      it returns is stored under that name. */
  lemma CurrentUserIsRegistered(users: UsersDb, token: Token)
    requires KeyedByName(users)
    ensures CurrentUser(users, token).Ok? ==>
              CurrentUser(users, token).value.username in users &&
              CurrentUser(users, token).value.username == token.sub.value
  {
  }
}
