/** The session login and logout views (0x02-Session_authentication/api/v1/views/session_auth.py). */
module SessionViews {
  import opened Common
  import opened Http
  import opened Users
  import Auth
  import opened SessionAuthentication
  import opened SessionExpiry
  import opened SessionDb
  import opened App

  /** What the login form checks find, in the order the view makes them. */
  datatype LoginCheck = EmailMissing | PasswordMissing | NoUserForEmail | WrongPassword | Authenticated(user: User)

  function FormGet(form: map<string, string>, key: string): Option<string>
  {
    if key in form then Some(form[key]) else None
  }

  /** The checks of `login` before any session is made: a missing or empty email first, then a
      missing or empty password, then the users with that email; only the first of them is
      asked to verify the password. `isValidPassword` is the user model's password check. */
  function CheckLogin(form: map<string, string>, users: seq<User>, isValidPassword: (User, string) -> bool): (c: LoginCheck)
    ensures c == EmailMissing <==> !Present(FormGet(form, "email"))
    ensures c == PasswordMissing <==> Present(FormGet(form, "email")) && !Present(FormGet(form, "password"))
    ensures c == NoUserForEmail <==>
              Present(FormGet(form, "email")) && Present(FormGet(form, "password"))
              && forall u :: u in users ==> u.email != form["email"]
    ensures c == WrongPassword || c.Authenticated? ==>
              && Present(FormGet(form, "email")) && Present(FormGet(form, "password"))
              && var first := SearchByEmail(users, form["email"]);
                 |first| > 0 && (c.Authenticated? <==> isValidPassword(first[0], form["password"]))
    ensures c.Authenticated? ==> c.user in users && c.user.email == form["email"]
                                 && isValidPassword(c.user, form["password"])
  {
    var email := FormGet(form, "email");
    var password := FormGet(form, "password");
    if !Present(email) then EmailMissing
    else if !Present(password) then PasswordMissing
    else
      var found := SearchByEmail(users, email.value);
      if found == [] then NoUserForEmail
      else
        assert found[0] in found;
        if !isValidPassword(found[0], password.value) then WrongPassword
        else Authenticated(found[0])
  }

  /** The email is checked before the password: without an email nothing else is looked at. */
  lemma EmailCheckedFirst(form: map<string, string>, users: seq<User>, isValidPassword: (User, string) -> bool)
    requires !Present(FormGet(form, "email"))
    ensures CheckLogin(form, users, isValidPassword) == EmailMissing
    ensures CheckLogin(form - {"password"}, [], isValidPassword) == EmailMissing
  {
    assert FormGet(form - {"password"}, "email") == FormGet(form, "email");
  }

  datatype LoginResponse = LoginFailed(status: int, error: string) | LoggedIn(user: User, cookieName: Option<string>, sessionId: string)

  /** The error response for each failed check. */
  function FailureResponse(c: LoginCheck): (r: LoginResponse)
    requires !c.Authenticated?
    ensures r.LoginFailed?
    ensures r.status == 400 <==> c == EmailMissing || c == PasswordMissing
    ensures r.status == 404 <==> c == NoUserForEmail
    ensures r.status == 401 <==> c == WrongPassword
  {
    match c
    case EmailMissing => LoginFailed(400, "email missing")
    case PasswordMissing => LoginFailed(400, "password missing")
    case NoUserForEmail => LoginFailed(404, "no user found for this email")
    case WrongPassword => LoginFailed(401, "wrong password")
  }

  /** `auth.create_session(user_id)` on the configured session authenticator. */
  method CreateSession(auth: Authenticator, userId: string, uuid: string, now: int) returns (sessionId: Option<string>)
    requires IsSessionBased(Some(auth))
    modifies Footprint(Some(auth))
    ensures sessionId == Some(uuid)
    ensures auth.SessionAuthenticator? ==>
              auth.session.table.userIdBySessionId == old(auth.session.table.userIdBySessionId)[uuid := userId]
    ensures auth.SessionExpAuthenticator? ==>
              auth.exp.table.userIdBySessionId == old(auth.exp.table.userIdBySessionId)[uuid := SessionRecord(userId, Some(now))]
    ensures auth.SessionDbAuthenticator? ==>
              && auth.db.exp.table.userIdBySessionId
                 == old(auth.db.exp.table.userIdBySessionId)[uuid := SessionRecord(userId, Some(now))]
              && auth.db.store.records == old(auth.db.store.records) + [UserSession(PyStr(userId), Some(uuid), Some(now))]
  {
    match auth
    case SessionAuthenticator(s) => sessionId := s.CreateSession(PyStr(userId), uuid);
    case SessionExpAuthenticator(e) => sessionId := e.CreateSession(PyStr(userId), uuid, now);
    case SessionDbAuthenticator(d) => sessionId := d.CreateSession(PyStr(userId), uuid, now);
  }

  /** `login`: the failed checks answer 400, 404 or 401 and create nothing; a verified user gets
      a session whose id is set as the `SESSION_NAME` cookie. With an authenticator that has no
      `create_session` (or none at all) the call raises inside the `try`, which answers 404. */
  method Login(auth: Option<Authenticator>, form: map<string, string>, users: seq<User>,
               isValidPassword: (User, string) -> bool, sessionName: Option<string>, uuid: string, now: int)
    returns (response: LoginResponse)
    modifies Footprint(auth)
    ensures var c := CheckLogin(form, users, isValidPassword);
            !c.Authenticated? ==> response == FailureResponse(c) && unchanged(Footprint(auth))
    ensures var c := CheckLogin(form, users, isValidPassword);
            c.Authenticated? && !IsSessionBased(auth) ==>
              response == LoginFailed(404, "no user found for this email") && unchanged(Footprint(auth))
    ensures var c := CheckLogin(form, users, isValidPassword);
            c.Authenticated? && IsSessionBased(auth) ==> response == LoggedIn(c.user, sessionName, uuid)
    ensures response.LoggedIn? && auth.value.SessionAuthenticator? ==>
              auth.value.session.table.userIdBySessionId
              == old(auth.value.session.table.userIdBySessionId)[uuid := response.user.id]
    ensures response.LoggedIn? && auth.value.SessionExpAuthenticator? ==>
              auth.value.exp.table.userIdBySessionId
              == old(auth.value.exp.table.userIdBySessionId)[uuid := SessionRecord(response.user.id, Some(now))]
    ensures response.LoggedIn? && auth.value.SessionDbAuthenticator? ==>
              auth.value.db.store.records
              == old(auth.value.db.store.records) + [UserSession(PyStr(response.user.id), Some(uuid), Some(now))]
  {
    var c := CheckLogin(form, users, isValidPassword);
    if !c.Authenticated? {
      return FailureResponse(c);
    }
    if !IsSessionBased(auth) {
      return LoginFailed(404, "no user found for this email");
    }
    var sessionId := CreateSession(auth.value, c.user.id, uuid, now);
    response := LoggedIn(c.user, sessionName, sessionId.value);
  }

  /** Whether the configured authenticator's `destroy_session` would succeed, read in the current state. */
  predicate WouldDestroy(auth: Authenticator, request: Request, sessionName: Option<string>, now: int)
    reads Footprint(Some(auth))
  {
    var cookie := Auth.SessionCookie(Some(request), sessionName);
    match auth
    case SessionAuthenticator(s) => Present(cookie) && Present(s.UserIdForSessionId(PyStr(cookie.value)))
    case SessionExpAuthenticator(e) => Present(cookie) && Present(e.UserIdForSessionId(PyStr(cookie.value), now))
    case SessionDbAuthenticator(d) =>
      Present(cookie) && Truthy(Resolve(d.store.records, PyStr(cookie.value), d.exp.sessionDuration, now).userId)
    case _ => false
  }

  /** `logout`: 200 when the session was destroyed, 404 when it was not. An authenticator
      without `destroy_session` raises outside any `try`, which the web framework answers with 500. */
  method Logout(auth: Option<Authenticator>, request: Request, sessionName: Option<string>, now: int)
    returns (status: int)
    modifies Footprint(auth)
    ensures !IsSessionBased(auth) ==> status == 500 && unchanged(Footprint(auth))
    ensures IsSessionBased(auth) ==> status == if old(WouldDestroy(auth.value, request, sessionName, now)) then 200 else 404
    ensures status == 200 && auth.value.SessionAuthenticator? ==>
              auth.value.session.table.userIdBySessionId
              == old(auth.value.session.table.userIdBySessionId) - {Auth.SessionCookie(Some(request), sessionName).value}
    ensures status == 404 && auth.value.SessionAuthenticator? ==>
              auth.value.session.table.userIdBySessionId == old(auth.value.session.table.userIdBySessionId)
    ensures status == 200 && auth.value.SessionExpAuthenticator? ==>
              auth.value.exp.table.userIdBySessionId
              == old(auth.value.exp.table.userIdBySessionId) - {Auth.SessionCookie(Some(request), sessionName).value}
    ensures status == 404 && auth.value.SessionExpAuthenticator? ==>
              auth.value.exp.table.userIdBySessionId == old(auth.value.exp.table.userIdBySessionId)
    ensures status == 200 && auth.value.SessionDbAuthenticator? ==>
              |auth.value.db.store.records| == |old(auth.value.db.store.records)| - 1
  {
    if !IsSessionBased(auth) {
      return 500;
    }
    var destroyed: bool;
    match auth.value {
      case SessionAuthenticator(s) => destroyed := s.DestroySession(Some(request), sessionName);
      case SessionExpAuthenticator(e) => destroyed := e.DestroySession(Some(request), sessionName, now);
      case SessionDbAuthenticator(d) => destroyed := d.DestroySession(Some(request), sessionName, now);
    }
    status := if destroyed then 200 else 404;
  }
}
