/** app/api/auth/participant/route.ts and app/api/auth/admin/route.ts: login
    and logout for participants (a session row plus a cookie) and for the
    admin (a cookie only). Random tokens are parameters. */
module AuthRoutes {
  import opened Db
  import opened Queries
  import Auth

  const Day: nat := 24 * 60 * 60 * 1000
  const Week: nat := 7 * Day

  const ParticipantCookie: string := "participant_session"
  const AdminCookie: string := "admin_session"

  /** The `user` object of the login response: five of the row's fields. */
  function LoginView(u: User): LoginUser
  {
    LoginUser(u.id, u.name, u.nickname, u.group_type, u.seat_number)
  }

  /** The login response shows exactly the five profile fields: two users
      get the same body exactly when those agree, so the qr code, the
      message, its image and the creation time never reach it. */
  lemma LoginViewSeesOnlyProfile(u: User, w: User)
    ensures LoginView(u) == LoginView(w) <==>
      u.id == w.id && u.name == w.name && u.nickname == w.nickname &&
      u.group_type == w.group_type && u.seat_number == w.seat_number
  {
  }

  /** Participant POST: 400 without a code; 401 unless the users read
      succeeds and exactly one user has the code; 500 when the session cannot
      be stored; otherwise a new session for the user, last active now, and a
      cookie with its token that expires a day later. The body carries the user's five profile fields,
      and `shouldSetupProfile` says the user has no nickname yet. */
  method ParticipantLogin(db: Database, qrCode: Option<string>, token: string, now: Time,
                          readFails: bool, insertFails: bool)
      returns (r: Response)
    modifies db`sessions, db`nextId
    ensures old(db.Valid()) ==> db.Valid()
    ensures Falsy(qrCode) ==> r == Fail(400, MissingField)
    ensures !Falsy(qrCode) && Single(UsersWithQr(Read(db.users, readFails), qrCode.value)).None? ==> r == Fail(401, InvalidCredentials)
    ensures r.status != 200 ==> db.sessions == old(db.sessions) && db.nextId == old(db.nextId)
    ensures !Falsy(qrCode) && Single(UsersWithQr(Read(db.users, readFails), qrCode.value)).Some? ==>
      var u := Single(UsersWithQr(Read(db.users, readFails), qrCode.value)).value;
      (insertFails ==> r == Fail(500, BackendFailure)) &&
      (!insertFails ==>
        db.sessions == old(db.sessions) + [UserSession(old(db.nextId), u.id, token, now)] &&
        r == Response(200, LoggedIn(LoginView(u), Falsy(u.nickname)), SetCookie(ParticipantCookie, token, now + Day)))
  {
    if Falsy(qrCode) {
      return Fail(400, MissingField);
    }
    var user := Single(UsersWithQr(Read(db.users, readFails), qrCode.value));
    if user.None? {
      return Fail(401, InvalidCredentials);
    }
    if insertFails {
      return Fail(500, BackendFailure);
    }
    var id := db.FreshId();
    db.sessions := db.sessions + [UserSession(id, user.value.id, token, now)];
    r := Response(200, LoggedIn(LoginView(user.value), Falsy(user.value.nickname)), SetCookie(ParticipantCookie, token, now + Day));
  }

  lemma {:induction false} TokenAppended(sessions: seq<UserSession>, s: UserSession)
    requires forall x :: x in sessions ==> x.session_token != s.session_token
    ensures Auth.SessionsWithToken(sessions + [s], s.session_token) == [s]
  {
    if sessions != [] {
      assert (sessions + [s])[1..] == sessions[1..] + [s];
      TokenAppended(sessions[1..], s);
    } else {
      assert sessions + [s] == [s];
    }
  }

  /** With a fresh token the new cookie finds the participant who logged
      in, on the next request. */
  lemma LoginThenLookup(sessions: seq<UserSession>, users: seq<User>, u: User, id: Id, token: string, now: Time)
    requires token != ""
    requires forall x :: x in sessions ==> x.session_token != token
    requires u in users && forall v :: v in users && v.id == u.id ==> v == u
    ensures Auth.SessionUser(sessions + [UserSession(id, u.id, token, now)], users, Some(token)) == Some(u)
  {
    TokenAppended(sessions, UserSession(id, u.id, token, now));
    UserFound(users, u);
  }

  lemma {:induction false} UserFound(users: seq<User>, u: User)
    requires u in users && forall v :: v in users && v.id == u.id ==> v == u
    ensures Auth.UserById(users, u.id) == Some(u)
  {
    if users[0] != u {
      UserFound(users[1..], u);
    }
  }

  /** `.delete().eq('session_token', token)`. */
  function WithoutToken(sessions: seq<UserSession>, token: string): (r: seq<UserSession>)
    ensures forall s :: s in r <==> s in sessions && s.session_token != token
  {
    if sessions == [] then []
    else
      var rest := WithoutToken(sessions[1..], token);
      assert forall s :: s in sessions <==> s == sessions[0] || s in sessions[1..];
      if sessions[0].session_token == token then rest else [sessions[0]] + rest
  }

  /** Participant DELETE: removes the sessions with the cookie's token, if
      there is one (a failing delete is not looked at), clears the cookie
      and succeeds. */
  method ParticipantLogout(db: Database, cookie: Option<string>, deleteFails: bool) returns (r: Response)
    modifies db`sessions
    ensures old(db.Valid()) ==> db.Valid()
    ensures r == Response(200, Success, ClearCookie(ParticipantCookie))
    ensures Auth.Token(cookie).Some? && !deleteFails ==> db.sessions == WithoutToken(old(db.sessions), cookie.value)
    ensures Auth.Token(cookie).None? || deleteFails ==> db.sessions == old(db.sessions)
  {
    var token := Auth.Token(cookie);
    if token.Some? && !deleteFails {
      db.sessions := WithoutToken(db.sessions, token.value);
    }
    r := Response(200, Success, ClearCookie(ParticipantCookie));
  }

  /** After logout the old cookie finds nobody. */
  lemma LogoutEndsSession(sessions: seq<UserSession>, users: seq<User>, cookie: Option<string>)
    requires Auth.Token(cookie).Some?
    ensures Auth.SessionUser(WithoutToken(sessions, cookie.value), users, cookie).None?
  {
    NoTokenLeft(WithoutToken(sessions, cookie.value), cookie.value);
  }

  lemma {:induction false} NoTokenLeft(sessions: seq<UserSession>, token: string)
    requires forall s :: s in sessions ==> s.session_token != token
    ensures Auth.SessionsWithToken(sessions, token) == []
  {
    if sessions != [] {
      assert sessions[0] in sessions;
      NoTokenLeft(sessions[1..], token);
    }
  }

  /** Admin POST: 400 without a password, 500 when the server has none set
      (checked before comparing), 401 on a mismatch, and otherwise an
      admin_session cookie that expires after seven days. */
  function AdminLogin(password: Option<string>, adminPassword: Option<string>, token: string, now: Time): (r: Response)
    ensures Falsy(password) ==> r == Fail(400, MissingField)
    ensures !Falsy(password) && Falsy(adminPassword) ==> r == Fail(500, ServerConfig)
    ensures !Falsy(password) && !Falsy(adminPassword) && password != adminPassword ==> r == Fail(401, InvalidCredentials)
    ensures r.status == 200 <==> !Falsy(password) && password == adminPassword
    ensures r.status == 200 ==> r == Response(200, Success, SetCookie(AdminCookie, token, now + Week))
    ensures r.status != 200 ==> r.cookie.NoCookie?
  {
    if Falsy(password) then Fail(400, MissingField)
    else if Falsy(adminPassword) then Fail(500, ServerConfig)
    else if password != adminPassword then Fail(401, InvalidCredentials)
    else Response(200, Success, SetCookie(AdminCookie, token, now + Week))
  }

  /** The cookie a successful login sets passes validateAdminSession. */
  lemma AdminLoginGrantsAdmin(password: Option<string>, adminPassword: Option<string>, token: string, now: Time)
    requires token != ""
    requires AdminLogin(password, adminPassword, token, now).status == 200
    ensures Auth.IsAdmin(Some(AdminLogin(password, adminPassword, token, now).cookie.cookieValue))
  {
  }

  /** Admin DELETE: clears the cookie and succeeds. */
  function AdminLogout(): (r: Response)
    ensures r.status == 200 && r.cookie == ClearCookie(AdminCookie)
  {
    Response(200, Success, ClearCookie(AdminCookie))
  }
}
