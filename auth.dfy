/** Accounts (auth.service.ts): registration with a unique email, login by email and
    password, and the lookup behind token validation. Passwords reach the table only as
    hashes; the signed access token is an uninterpreted function of the user's claims. */
module Auth {
  import opened Common
  import opened Tables
  import opened Schema

  const EmailTaken := Error(Conflict, "Email already exists")
  const InvalidCredentials := Error(Unauthorized, "Invalid credentials")
  const UserNotFound := Error(Unauthorized, "User not found")

  /** The user fields an answer exposes: never the password hash. */
  datatype PublicUser = PublicUser(id: string, email: string, role: Role)

  datatype Session = Session(user: PublicUser, accessToken: string)

  /** `jwtService.sign({ sub, email, role })`. */
  type Signer = (string, string, Role) -> string

  function SessionFor(u: User, sign: Signer): (s: Session)
    ensures s.user == PublicUser(u.id, u.email, u.role)
    ensures s.accessToken == sign(u.id, u.email, u.role)
  {
    Session(PublicUser(u.id, u.email, u.role), sign(u.id, u.email, u.role))
  }

  /** `user.findUnique({ where: { email } })`. */
  function FindByEmail(users: seq<User>, email: string): (r: Option<User>)
    ensures r.None? <==> email !in Keys(users, UserEmail)
    ensures r.Some? ==> r.value in users && r.value.email == email
  {
    match IndexOf(users, UserEmail, email)
    case None => None
    case Some(i) => Some(users[i])
  }

  /** The row `register` inserts: the hash of the password, the default role. */
  function NewUser(id: string, email: string, password: string, now: nat, hasher: Hasher): (u: User)
    ensures u.id == id && u.email == email && u.role == RegularUser && u.createdAt == now
    ensures u.password == hasher.hash(password, BcryptRounds)
  {
    User(id, email, hasher.hash(password, BcryptRounds), RegularUser, now)
  }

  /** `register(dto)`. */
  method Register(
    db: Database, email: string, password: string, id: string, now: nat, hasher: Hasher, sign: Signer)
    returns (r: Result<Session>)
    requires db.Valid()
    requires id !in Keys(db.users, UserId)
    modifies db
    ensures db.Valid()
    ensures db.files == old(db.files) && db.links == old(db.links)
    ensures db.logs == old(db.logs) && db.packages == old(db.packages)
    ensures email in Keys(old(db.users), UserEmail) ==> r == Err(EmailTaken) && db.users == old(db.users)
    ensures email !in Keys(old(db.users), UserEmail) ==>
      var u := NewUser(id, email, password, now, hasher);
      db.users == old(db.users) + [u] && r == Ok(SessionFor(u, sign))
  {
    if FindByEmail(db.users, email).Some? {
      return Err(EmailTaken);
    }
    var u := NewUser(id, email, password, now, hasher);
    DistinctAppend(db.users, u, UserId);
    DistinctAppend(db.users, u, UserEmail);
    db.users := db.users + [u];
    r := Ok(SessionFor(u, sign));
  }

  /** `login(dto)`: an unknown email and a wrong password are refused alike. */
  function Login(users: seq<User>, email: string, password: string, hasher: Hasher, sign: Signer)
    : (r: Result<Session>)
    requires Distinct(users, UserEmail)
    ensures r.Err? ==> r.error == InvalidCredentials
    ensures email !in Keys(users, UserEmail) ==> r == Err(InvalidCredentials)
    ensures r.Ok? <==> exists u | u in users :: u.email == email && hasher.compare(password, u.password)
    ensures forall u | u in users && u.email == email ::
      r == if hasher.compare(password, u.password) then Ok(SessionFor(u, sign)) else Err(InvalidCredentials)
  {
    match FindByEmail(users, email)
    case None => Err(InvalidCredentials)
    case Some(u) =>
      forall v | v in users && v.email == email ensures v == u {
        SameKeySameRow(users, UserEmail, v, u);
      }
      if hasher.compare(password, u.password) then Ok(SessionFor(u, sign)) else Err(InvalidCredentials)
  }

  /** `validateUser(userId)`. */
  function ValidateUser(users: seq<User>, id: string): (r: Result<User>)
    ensures r.Ok? <==> id in Keys(users, UserId)
    ensures r.Ok? ==> r.value in users && r.value.id == id
    ensures r.Err? ==> r.error == UserNotFound
  {
    match IndexOf(users, UserId, id)
    case None => Err(UserNotFound)
    case Some(i) => Ok(users[i])
  }

  /** Round trip: right after registering, logging in with the same email and password
      opens a session for the new user; any password the hash does not accept is refused. */
  lemma LoginAfterRegister(
    users: seq<User>, id: string, email: string, password: string, other: string,
    now: nat, hasher: Hasher, sign: Signer)
    requires Distinct(users, UserEmail) && email !in Keys(users, UserEmail)
    requires AcceptsOwnHashes(hasher)
    ensures var u := NewUser(id, email, password, now, hasher);
      && Distinct(users + [u], UserEmail)
      && Login(users + [u], email, password, hasher, sign) == Ok(SessionFor(u, sign))
      && Login(users + [u], email, password, hasher, sign).value.user.id == id
      && (!hasher.compare(other, u.password) ==>
            Login(users + [u], email, other, hasher, sign) == Err(InvalidCredentials))
  {
    var u := NewUser(id, email, password, now, hasher);
    DistinctAppend(users, u, UserEmail);
    assert u in users + [u];
  }
}
