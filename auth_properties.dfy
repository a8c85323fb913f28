/**
 * Properties of the session state machine that relate several calls of the
 * auth handlers: enumeration resistance, staleness of refresh tokens after
 * logout or re-login, at most one live refresh token per user, and the
 * end-to-end scenarios of a register/login/logout/refresh session.
 */
module AuthProperties {
  import opened Wrappers
  import opened Tokens
  import opened AuthSpec

  /** "No such user" and "wrong password" give the same status, message and table. */
  lemma LoginFailuresIndistinguishable(
    db: Db, unknown: string, anyPassword: string, known: string, wrongPassword: string, now: int)
    requires unknown != "" && anyPassword != "" && unknown !in db.users
    requires known != "" && wrongPassword != "" && known in db.users
    requires !Matches(wrongPassword, db.users[known].passwordHash)
    ensures Login(db, unknown, anyPassword, now) == Login(db, known, wrongPassword, now)
    ensures Login(db, unknown, anyPassword, now) == Outcome(db, Reply(401, Message(InvalidCredentials)))
  {
  }

  /** In a valid table at most one row carries a given id. */
  lemma {:induction false} RowOfId(db: Db, e1: string, e2: string)
    requires Valid(db)
    requires e1 in db.users && e2 in db.users && db.users[e1].id == db.users[e2].id
    ensures e1 == e2
  {
  }

  /**
   * At most one live refresh token per user: two tokens that the refresh
   * handler accepts for the same user are the same token.
   */
  lemma {:induction false} AtMostOneLiveRefreshToken(db: Db, t1: Token, now1: int, t2: Token, now2: int)
    requires Valid(db)
    requires Refresh(db, Jwt(t1), now1).status == 200
    requires Refresh(db, Jwt(t2), now2).status == 200
    requires t1.userId == t2.userId
    ensures t1 == t2
  {
    var e1 :| e1 in db.users && db.users[e1].id == t1.userId && db.users[e1].refreshToken == Some(t1);
    var e2 :| e2 in db.users && db.users[e2].id == t2.userId && db.users[e2].refreshToken == Some(t2);
    RowOfId(db, e1, e2);
  }

  /** A token the refresh handler accepts is the one stored on its user's row. */
  lemma AcceptedTokenIsStored(db: Db, t: Token, now: int)
    requires Refresh(db, Jwt(t), now).status == 200
    ensures exists e :: e in db.users && db.users[e].id == t.userId && db.users[e].refreshToken == Some(t)
  {
  }

  /** After logout, every refresh token of that user is refused with 403. */
  lemma RefreshRefusedAfterLogout(db: Db, userId: UserId, t: Token, now: int)
    requires t.userId == userId
    ensures Refresh(Logout(db, userId).db, Jwt(t), now).status == 403
  {
  }

  /** A second logout leaves the state and the reply of the first. */
  lemma LogoutIdempotent(db: Db, userId: UserId)
    ensures Logout(Logout(db, userId).db, userId) == Logout(db, userId)
  {
    var once := Logout(db, userId);
    var twice := Logout(once.db, userId);
    if HasUser(db, userId) {
      var e :| e in db.users && db.users[e].id == userId;
      assert e in once.db.users && once.db.users[e].id == userId;
      assert twice.db.users == once.db.users;
    }
  }

  /**
   * After a successful login, every other refresh token of that user is
   * stale: refresh refuses it with 403.
   */
  lemma {:induction false} RefreshRefusedAfterRelogin(
    db: Db, email: string, password: string, now: int, stale: Token, later: int)
    requires Valid(db)
    requires Login(db, email, password, now).reply.status == 200
    requires stale.userId == db.users[email].id
    requires stale != Login(db, email, password, now).reply.body.refreshToken
    ensures Refresh(Login(db, email, password, now).db, Jwt(stale), later).status == 403
  {
    var o := Login(db, email, password, now);
    if StoresRefreshToken(o.db, stale.userId, stale) {
      var e :| e in o.db.users && o.db.users[e].id == stale.userId && o.db.users[e].refreshToken == Some(stale);
      assert Valid(o.db);
      RowOfId(o.db, e, email);
      assert false;
    }
  }

  /** The refresh token a login returns is accepted until it expires. */
  lemma RefreshAcceptedAfterLogin(db: Db, email: string, password: string, now: int, later: int)
    requires Login(db, email, password, now).reply.status == 200
    requires now <= later < now + RefreshLifetime
    ensures var o := Login(db, email, password, now);
      Refresh(o.db, Jwt(o.reply.body.refreshToken), later).status == 200
  {
    var o := Login(db, email, password, now);
    assert email in o.db.users && o.db.users[email].refreshToken == Some(o.reply.body.refreshToken);
  }

  /** An access token is never exchanged for a new one: it is not signed with the refresh secret. */
  lemma AccessTokenRefused(db: Db, userId: UserId, issued: int, now: int)
    ensures Refresh(db, Jwt(GenerateAccessToken(userId, issued)), now).status == 403
  {
  }

  /** A refresh token presented at or after its `exp` is refused. */
  lemma ExpiredRefreshRefused(db: Db, t: Token, now: int)
    requires now >= t.exp
    ensures Refresh(db, Jwt(t), now).status == 403
  {
  }

  /** Register then login with the same credentials succeeds, with tokens for the new id. */
  lemma {:induction false} RegisterThenLogin(db: Db, email: string, password: string, salt: nat, now: int)
    requires Valid(db) && email != "" && password != "" && email !in db.users
    ensures var r := Register(db, email, password, salt);
      var l := Login(r.db, email, password, now);
      && r.reply.status == 201
      && l.reply.status == 200
      && l.reply.body.accessToken.userId == r.reply.body.userId
      && l.reply.body.refreshToken.userId == r.reply.body.userId
  {
    var r := Register(db, email, password, salt);
    assert Matches(password, r.db.users[email].passwordHash);
  }

  /**
   * Register, login at `t1`, logout, then refresh with the refresh token of
   * that login: refused with 403 "Invalid refresh token".
   */
  lemma {:induction false} LogoutScenario(db: Db, email: string, password: string, salt: nat, t1: int, t2: int)
    requires Valid(db) && email != "" && password != "" && email !in db.users
    requires t1 <= t2 < t1 + RefreshLifetime
    ensures var r := Register(db, email, password, salt);
      var l := Login(r.db, email, password, t1);
      var o := Logout(l.db, r.reply.body.userId);
      && o.reply.status == 200
      && Refresh(o.db, Jwt(l.reply.body.refreshToken), t2) == Reply(403, Message(InvalidRefresh))
  {
    var r := Register(db, email, password, salt);
    RegisterThenLogin(db, email, password, salt, t1);
    var l := Login(r.db, email, password, t1);
    assert email in l.db.users && l.db.users[email].id == r.reply.body.userId;
    RefreshRefusedAfterLogout(l.db, r.reply.body.userId, l.reply.body.refreshToken, t2);
  }

  /**
   * Two logins in different seconds: the first refresh token is refused
   * after the second login and the second one is accepted.
   */
  lemma {:induction false} ReloginScenario(db: Db, email: string, password: string, t1: int, t2: int, t3: int)
    requires Valid(db)
    requires Login(db, email, password, t1).reply.status == 200
    requires t1 < t2 <= t3 < t2 + RefreshLifetime
    ensures var first := Login(db, email, password, t1);
      var second := Login(first.db, email, password, t2);
      && second.reply.status == 200
      && Refresh(second.db, Jwt(first.reply.body.refreshToken), t3).status == 403
      && Refresh(second.db, Jwt(second.reply.body.refreshToken), t3).status == 200
  {
    var first := Login(db, email, password, t1);
    assert first.db.users[email].passwordHash == db.users[email].passwordHash;
    var second := Login(first.db, email, password, t2);
    assert first.db.users[email].id == db.users[email].id;
    RefreshRefusedAfterRelogin(first.db, email, password, t2, first.reply.body.refreshToken, t3);
    RefreshAcceptedAfterLogin(first.db, email, password, t2, t3);
  }

  /**
   * `iat` has one-second resolution: two logins in the same second mint the
   * same refresh token, so the earlier session's token stays live.
   */
  lemma SameSecondReloginKeepsToken(db: Db, email: string, password: string, now: int)
    requires Login(db, email, password, now).reply.status == 200
    ensures var first := Login(db, email, password, now);
      var second := Login(first.db, email, password, now);
      second.reply.body.refreshToken == first.reply.body.refreshToken
  {
    var first := Login(db, email, password, now);
    assert first.db.users[email].passwordHash == db.users[email].passwordHash;
  }
}
