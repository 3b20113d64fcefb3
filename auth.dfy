/** lib/auth.ts: the admin check and the participant session lookup. */
module Auth {
  import opened Db

  /** validateAdminSession: an `admin_session` cookie with a non-empty value;
      what the value is does not matter. */
  predicate IsAdmin(adminCookie: Option<string>)
    ensures IsAdmin(adminCookie) <==> Token(adminCookie).Some?
  {
    adminCookie.Some? && adminCookie.value != ""
  }

  lemma AdminValueIgnored(v: string, w: string)
    requires v != "" && w != ""
    ensures IsAdmin(Some(v)) == IsAdmin(Some(w))
    ensures !IsAdmin(None) && !IsAdmin(Some(""))
  {
  }

  /** The participant_session cookie's token, when it is present and non-empty. */
  function Token(cookie: Option<string>): (t: Option<string>)
    ensures t.Some? <==> cookie.Some? && cookie.value != ""
    ensures t.Some? ==> t.value == cookie.value
  {
    if cookie.Some? && cookie.value != "" then cookie else None
  }

  function SessionsWithToken(sessions: seq<UserSession>, token: string): (r: seq<UserSession>)
    ensures |r| <= |sessions|
    ensures forall s :: s in r <==> s in sessions && s.session_token == token
  {
    if sessions == [] then []
    else
      var rest := SessionsWithToken(sessions[1..], token);
      assert forall s :: s in sessions <==> s == sessions[0] || s in sessions[1..];
      if sessions[0].session_token == token then [sessions[0]] + rest else rest
  }

  /** The user row with the given primary key. */
  function UserById(users: seq<User>, id: Id): (r: Option<User>)
    ensures r.Some? ==> r.value in users && r.value.id == id
    ensures r.None? ==> forall u :: u in users ==> u.id != id
  {
    if users == [] then None
    else if users[0].id == id then Some(users[0])
    else UserById(users[1..], id)
  }

  /** The session `.single()` finds for the cookie, if any. */
  function FindSession(sessions: seq<UserSession>, cookie: Option<string>): (r: Option<UserSession>)
    ensures Token(cookie).None? ==> r.None?
    ensures r.Some? ==> r.value in sessions && Some(r.value.session_token) == Token(cookie)
    ensures Token(cookie).Some? ==> (r.Some? <==> |SessionsWithToken(sessions, Token(cookie).value)| == 1)
  {
    match Token(cookie)
    case None => None
    case Some(t) =>
      var found := Single(SessionsWithToken(sessions, t));
      assert found.Some? ==> found.value in SessionsWithToken(sessions, t);
      found
  }

  /** What getCurrentUser returns: the user joined to the session, if both exist. */
  function SessionUser(sessions: seq<UserSession>, users: seq<User>, cookie: Option<string>): (r: Option<User>)
    ensures r.Some? ==> FindSession(sessions, cookie).Some? && r.value in users
    ensures r.Some? ==> r.value.id == FindSession(sessions, cookie).value.user_id
  {
    match FindSession(sessions, cookie)
    case None => None
    case Some(s) => UserById(users, s.user_id)
  }

  /** Sets last_active to now on every session holding the token. */
  function Touch(sessions: seq<UserSession>, token: string, now: Time): (r: seq<UserSession>)
    ensures |r| == |sessions|
    ensures forall i :: 0 <= i < |r| ==>
      if sessions[i].session_token == token then r[i] == sessions[i].(last_active := now)
      else r[i] == sessions[i]
  {
    if sessions == [] then []
    else
      var s := sessions[0];
      [if s.session_token == token then s.(last_active := now) else s] + Touch(sessions[1..], token, now)
  }

  /** The sessions table after a getCurrentUser call: touched exactly when a
      single session matched the cookie. */
  function AfterLookup(sessions: seq<UserSession>, cookie: Option<string>, now: Time): (r: seq<UserSession>)
    ensures |r| == |sessions|
    ensures forall i :: 0 <= i < |r| ==>
      r[i] == sessions[i] || r[i] == sessions[i].(last_active := now)
    ensures FindSession(sessions, cookie).None? ==> r == sessions
  {
    match FindSession(sessions, cookie)
    case None => sessions
    case Some(s) => Touch(sessions, s.session_token, now)
  }

  /** The user getCurrentUser returns when its session read may fail
      (`lookupFails`): `error || !session` gives null, so a failed read
      finds no user, whatever the cookie. */
  function CurrentUser(sessions: seq<UserSession>, users: seq<User>, cookie: Option<string>, lookupFails: bool): (r: Option<User>)
    ensures lookupFails ==> r.None?
    ensures !lookupFails ==> r == SessionUser(sessions, users, cookie)
  {
    var found := FindSession(Read(sessions, lookupFails), cookie);
    assert lookupFails ==> found.None?;
    SessionUser(Read(sessions, lookupFails), users, cookie)
  }

  /** The sessions table after getCurrentUser. The touch runs only after a
      successful read that found the session, and its own error is not
      read: a failed touch (`touchFails`) leaves last_active as it was. */
  function SessionsAfter(sessions: seq<UserSession>, cookie: Option<string>, now: Time,
                         lookupFails: bool, touchFails: bool): (r: seq<UserSession>)
    ensures |r| == |sessions|
    ensures forall i :: 0 <= i < |r| ==>
      r[i] == sessions[i] || r[i] == sessions[i].(last_active := now)
    ensures lookupFails || touchFails ==> r == sessions
    ensures !lookupFails && !touchFails ==> r == AfterLookup(sessions, cookie, now)
  {
    if lookupFails || touchFails then sessions else AfterLookup(sessions, cookie, now)
  }

  /** getCurrentUser: looks the token up, refreshes that session's last_active
      and returns the linked user. No expiry is checked. Neither the read's
      failure nor the touch's is reported to the caller. */
  method GetCurrentUser(db: Database, cookie: Option<string>, now: Time, lookupFails: bool, touchFails: bool)
      returns (user: Option<User>)
    modifies db`sessions
    ensures old(db.Valid()) ==> db.Valid()
    ensures user == CurrentUser(old(db.sessions), db.users, cookie, lookupFails)
    ensures db.sessions == SessionsAfter(old(db.sessions), cookie, now, lookupFails, touchFails)
  {
    var found := FindSession(Read(db.sessions, lookupFails), cookie);
    if found.None? {
      return None;
    }
    if !touchFails {
      db.sessions := Touch(db.sessions, found.value.session_token, now);
    }
    user := UserById(db.users, found.value.user_id);
  }

  /** A session that getCurrentUser found now carries last_active == now, and
      no session with another token changed. */
  lemma {:induction false} LookupTouchesOnlyTheCaller(sessions: seq<UserSession>, cookie: Option<string>, now: Time)
    requires FindSession(sessions, cookie).Some?
    ensures var after := AfterLookup(sessions, cookie, now);
      |after| == |sessions| &&
      (forall i :: 0 <= i < |after| && Some(sessions[i].session_token) == Token(cookie) ==> after[i].last_active == now) &&
      (forall i :: 0 <= i < |after| && Some(sessions[i].session_token) != Token(cookie) ==> after[i] == sessions[i])
  {
    var s := FindSession(sessions, cookie).value;
    var after := Touch(sessions, s.session_token, now);
    assert AfterLookup(sessions, cookie, now) == after;
  }
}
