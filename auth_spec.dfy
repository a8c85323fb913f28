/**
 * The four handlers of backend/controllers/auth.ts as functions from the
 * user table to the new table and the HTTP reply. The table maps an email
 * to its row; Prisma's generated ids are drawn from `nextId`.
 */
module AuthSpec {
  import opened Wrappers
  import opened Tokens

  /** Stand-in for a bcrypt digest: the salt drawn by `bcrypt.hash` and what was hashed. */
  datatype Digest = Digest(salt: nat, source: string)

  /** `bcrypt.compare(attempt, digest)`. */
  predicate Matches(attempt: string, d: Digest)
  {
    attempt == d.source
  }

  /** `bcrypt.hash(password, 10)` with the salt it draws. */
  function Hash(password: string, salt: nat): (d: Digest)
    ensures forall attempt :: Matches(attempt, d) <==> attempt == password
  {
    Digest(salt, password)
  }

  datatype User = User(id: UserId, passwordHash: Digest, refreshToken: Option<Token>)

  datatype Db = Db(users: map<string, User>, nextId: UserId)

  /**
   * Ids are positive, unique and below `nextId`; a stored refresh token was
   * minted for the row that holds it, under the refresh secret.
   */
  ghost predicate Valid(db: Db)
  {
    && 1 <= db.nextId
    && (forall e :: e in db.users ==> 1 <= db.users[e].id < db.nextId)
    && (forall e1, e2 :: e1 in db.users && e2 in db.users && e1 != e2 ==>
          db.users[e1].id != db.users[e2].id)
    && (forall e :: e in db.users && db.users[e].refreshToken.Some? ==>
          db.users[e].refreshToken.value.userId == db.users[e].id &&
          db.users[e].refreshToken.value.kind == RefreshSecret)
  }

  datatype Body =
    | Message(message: string)
    | Registered(message: string, userId: UserId)
    | LoggedIn(message: string, accessToken: Token, refreshToken: Token)
    | Refreshed(accessToken: Token)

  datatype Reply = Reply(status: int, body: Body)

  datatype Outcome = Outcome(db: Db, reply: Reply)

  const MissingCredentials := "Email and password are required"
  const UserExists := "User already exists"
  const RegisteredMessage := "User registered successfully"
  const InvalidCredentials := "Invalid credentials"
  const LoginSuccessful := "Login successful"
  const LoggedOut := "Logged out successfully"
  const InternalError := "Internal server error"
  const RefreshRequired := "Refresh token required"
  const InvalidRefresh := "Invalid refresh token"
  const InvalidOrExpiredRefresh := "Invalid or expired refresh token"

  /** Some row has the given id. */
  predicate HasUser(db: Db, id: UserId)
  {
    exists e :: e in db.users && db.users[e].id == id
  }

  /** The row with the given id stores exactly `t` as its refresh token. */
  predicate StoresRefreshToken(db: Db, id: UserId, t: Token)
  {
    exists e :: e in db.users && db.users[e].id == id && db.users[e].refreshToken == Some(t)
  }

  /** `register`: a missing field, or an email already present, leaves the table as it is. */
  function Register(db: Db, email: string, password: string, salt: nat): (o: Outcome)
    ensures Valid(db) ==> Valid(o.db)
    ensures o.reply.status == 201 <==> email != "" && password != "" && email !in db.users
    ensures o.reply.status != 201 ==> o.db == db && o.reply.status == 400
    ensures email == "" || password == "" ==> o == Outcome(db, Reply(400, Message(MissingCredentials)))
    ensures email != "" && password != "" && email in db.users ==> o == Outcome(db, Reply(400, Message(UserExists)))
    ensures o.reply.status == 201 ==>
      && o.db.users.Keys == db.users.Keys + {email}
      && (forall e :: e in db.users ==> o.db.users[e] == db.users[e])
      && (forall attempt :: Matches(attempt, o.db.users[email].passwordHash) <==> attempt == password)
      && o.db.users[email].refreshToken == None
      && o.reply.body == Registered(RegisteredMessage, o.db.users[email].id)
    ensures o.reply.status == 201 && Valid(db) ==>
      forall e :: e in db.users ==> db.users[e].id != o.db.users[email].id
  {
    if email == "" || password == "" then
      Outcome(db, Reply(400, Message(MissingCredentials)))
    else if email in db.users then
      Outcome(db, Reply(400, Message(UserExists)))
    else
      var row := User(db.nextId, Hash(password, salt), None);
      Outcome(Db(db.users[email := row], db.nextId + 1),
              Reply(201, Registered(RegisteredMessage, db.nextId)))
  }

  /**
   * `login`: an unknown email and a wrong password give the same reply; a
   * successful login overwrites that user's refresh token and nothing else.
   */
  function Login(db: Db, email: string, password: string, now: int): (o: Outcome)
    ensures Valid(db) ==> Valid(o.db)
    ensures o.reply.status == 200 <==>
      email != "" && password != "" && email in db.users &&
      Matches(password, db.users[email].passwordHash)
    ensures (email == "" || password == "") ==> o == Outcome(db, Reply(400, Message(MissingCredentials)))
    ensures email != "" && password != "" && o.reply.status != 200 ==>
      o == Outcome(db, Reply(401, Message(InvalidCredentials)))
    ensures o.reply.status == 200 ==>
      && o.reply.body.LoggedIn?
      && o.reply.body.message == LoginSuccessful
      && o.reply.body.accessToken.kind == AccessSecret
      && o.reply.body.accessToken.userId == db.users[email].id
      && o.reply.body.refreshToken.kind == RefreshSecret
      && o.reply.body.refreshToken.userId == db.users[email].id
      && o.db.nextId == db.nextId
      && o.db.users == db.users[email := db.users[email].(refreshToken := Some(o.reply.body.refreshToken))]
  {
    if email == "" || password == "" then
      Outcome(db, Reply(400, Message(MissingCredentials)))
    else if email !in db.users then
      Outcome(db, Reply(401, Message(InvalidCredentials)))
    else
      var user := db.users[email];
      if !Matches(password, user.passwordHash) then
        Outcome(db, Reply(401, Message(InvalidCredentials)))
      else
        var accessToken := GenerateAccessToken(user.id, now);
        var refreshToken := GenerateRefreshToken(user.id, now);
        Outcome(Db(db.users[email := user.(refreshToken := Some(refreshToken))], db.nextId),
                Reply(200, LoggedIn(LoginSuccessful, accessToken, refreshToken)))
  }

  /**
   * `logout` for the authenticated `userId`: clears that row's refresh token.
   * Prisma's `update` throws when no row has the id, which the handler turns
   * into a 500.
   */
  function Logout(db: Db, userId: UserId): (o: Outcome)
    ensures Valid(db) ==> Valid(o.db)
    ensures o.reply.status == 200 <==> HasUser(db, userId)
    ensures o.reply.status != 200 ==> o == Outcome(db, Reply(500, Message(InternalError)))
    ensures o.reply.status == 200 ==> o.reply.body == Message(LoggedOut)
    ensures o.db.nextId == db.nextId && o.db.users.Keys == db.users.Keys
    ensures forall e :: e in db.users && db.users[e].id != userId ==> o.db.users[e] == db.users[e]
    ensures forall e :: e in db.users && db.users[e].id == userId ==>
      o.db.users[e] == db.users[e].(refreshToken := None)
  {
    if HasUser(db, userId) then
      var users := map e | e in db.users ::
        if db.users[e].id == userId then db.users[e].(refreshToken := None) else db.users[e];
      Outcome(Db(users, db.nextId), Reply(200, Message(LoggedOut)))
    else
      Outcome(db, Reply(500, Message(InternalError)))
  }

  /**
   * `refresh`: succeeds only for an unexpired token signed with the refresh
   * secret that equals the one stored for its user; it mints a new access
   * token and leaves the table untouched (there is no rotation).
   */
  function Refresh(db: Db, presented: Presented, now: int): (r: Reply)
    ensures r.status == 400 <==> presented.Missing?
    ensures r.status == 200 <==>
      && presented.Jwt?
      && presented.token.kind == RefreshSecret
      && now < presented.token.exp
      && StoresRefreshToken(db, presented.token.userId, presented.token)
    ensures r.status != 200 && r.status != 400 ==> r.status == 403 && r.body.Message?
    ensures r.status == 200 ==>
      && r.body.Refreshed?
      && r.body.accessToken.kind == AccessSecret
      && r.body.accessToken.userId == presented.token.userId
      && r.body.accessToken.exp == now + AccessLifetime
  {
    if presented.Missing? then
      Reply(400, Message(RefreshRequired))
    else
      match Verify(presented, RefreshSecret, now)
      case Rejected(_) => Reply(403, Message(InvalidOrExpiredRefresh))
      case Verified(userId) =>
        if StoresRefreshToken(db, userId, presented.token) then
          Reply(200, Refreshed(GenerateAccessToken(userId, now)))
        else
          Reply(403, Message(InvalidRefresh))
  }
}
