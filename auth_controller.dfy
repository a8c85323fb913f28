/**
 * backend/controllers/auth.ts as written: each handler runs its guards with
 * early returns and then updates the user table in place. Every method is
 * proved to agree with the matching function of AuthSpec.
 */
module AuthController {
  import opened Wrappers
  import opened Tokens
  import opened AuthSpec

  /** Ids are unique, so logging out clears the one row that has the id. */
  lemma LogoutRow(db: Db, userId: UserId, email: string)
    requires Valid(db) && email in db.users && db.users[email].id == userId
    ensures AuthSpec.Logout(db, userId).db == Db(db.users[email := db.users[email].(refreshToken := None)], db.nextId)
  {
    var cleared := db.users[email := db.users[email].(refreshToken := None)];
    assert AuthSpec.Logout(db, userId).db.users == cleared;
  }

  class UserTable {
    var users: map<string, User>
    var nextId: UserId

    function State(): Db
      reads this
    {
      Db(users, nextId)
    }

    ghost predicate Invariant()
      reads this
    {
      Valid(State())
    }

    constructor ()
      ensures Invariant()
      ensures State() == Db(map[], 1)
    {
      users := map[];
      nextId := 1;
    }

    method Register(email: string, password: string, salt: nat) returns (reply: Reply)
      requires Invariant()
      modifies this
      ensures Invariant()
      ensures Outcome(State(), reply) == AuthSpec.Register(old(State()), email, password, salt)
    {
      if email == "" || password == "" {
        return Reply(400, Message(MissingCredentials));
      }
      if email in users {
        return Reply(400, Message(UserExists));
      }
      var hashed := Hash(password, salt);
      var id := nextId;
      users := users[email := User(id, hashed, None)];
      nextId := nextId + 1;
      return Reply(201, Registered(RegisteredMessage, id));
    }

    method Login(email: string, password: string, now: int) returns (reply: Reply)
      requires Invariant()
      modifies this
      ensures Invariant()
      ensures Outcome(State(), reply) == AuthSpec.Login(old(State()), email, password, now)
    {
      if email == "" || password == "" {
        return Reply(400, Message(MissingCredentials));
      }
      if email !in users {
        return Reply(401, Message(InvalidCredentials));
      }
      var user := users[email];
      if !Matches(password, user.passwordHash) {
        return Reply(401, Message(InvalidCredentials));
      }
      var accessToken := GenerateAccessToken(user.id, now);
      var refreshToken := GenerateRefreshToken(user.id, now);
      users := users[email := user.(refreshToken := Some(refreshToken))];
      return Reply(200, LoggedIn(LoginSuccessful, accessToken, refreshToken));
    }

    method Logout(userId: UserId) returns (reply: Reply)
      requires Invariant()
      modifies this
      ensures Invariant()
      ensures Outcome(State(), reply) == AuthSpec.Logout(old(State()), userId)
    {
      if !(exists e :: e in users && users[e].id == userId) {
        return Reply(500, Message(InternalError));
      }
      var email :| email in users && users[email].id == userId;
      LogoutRow(State(), userId, email);
      users := users[email := users[email].(refreshToken := None)];
      return Reply(200, Message(LoggedOut));
    }

    /** Reads the table and never writes it: there is no refresh-token rotation. */
    method Refresh(presented: Presented, now: int) returns (reply: Reply)
      requires Invariant()
      ensures reply == AuthSpec.Refresh(State(), presented, now)
    {
      if presented.Missing? {
        return Reply(400, Message(RefreshRequired));
      }
      var decoded := Verify(presented, RefreshSecret, now);
      if decoded.Rejected? {
        return Reply(403, Message(InvalidOrExpiredRefresh));
      }
      if !(exists e :: e in users && users[e].id == decoded.userId) {
        return Reply(403, Message(InvalidRefresh));
      }
      var email :| email in users && users[email].id == decoded.userId;
      var user := users[email];
      if user.refreshToken != Some(presented.token) {
        return Reply(403, Message(InvalidRefresh));
      }
      return Reply(200, Refreshed(GenerateAccessToken(user.id, now)));
    }
  }
}
