/** `SessionAuth` (0x02-Session_authentication/api/v1/auth/session_auth.py): sessions kept in
    one dictionary `session_id -> user_id` that belongs to the class, so every instance reads
    and writes the same table. The table is an object of its own here, and each authenticator
    holds a reference to it. */
module SessionAuthentication {
  import opened Common
  import opened Http
  import opened Users
  import Auth

  /** The class-level dictionary `user_id_by_session_id`, shared by every instance. */
  class SessionTable<V> {
    var userIdBySessionId: map<string, V>

    constructor ()
      ensures userIdBySessionId == map[]
    {
      userIdBySessionId := map[];
    }
  }

  class SessionAuth {
    const table: SessionTable<string>

    constructor (table: SessionTable<string>)
      ensures this.table == table
    {
      this.table := table;
    }

    /** `create_session`: rejects a `None` or non-string user id; otherwise stores the user id
        under the id `uuid` (the fresh identifier `uuid4` yields) and returns that id. */
    method CreateSession(userId: PyValue, uuid: string) returns (sessionId: Option<string>)
      modifies table
      ensures !userId.PyStr? ==> sessionId.None? && table.userIdBySessionId == old(table.userIdBySessionId)
      ensures userId.PyStr? ==> sessionId == Some(uuid)
                                && table.userIdBySessionId == old(table.userIdBySessionId)[uuid := userId.s]
      ensures userId.PyStr? ==> UserIdForSessionId(PyStr(uuid)) == Some(userId.s)
    {
      if !userId.PyStr? {
        return None;
      }
      table.userIdBySessionId := table.userIdBySessionId[uuid := userId.s];
      sessionId := Some(uuid);
    }

    /** `user_id_for_session_id`: a plain lookup; `None` for a `None`, non-string or unknown id. */
    function UserIdForSessionId(sessionId: PyValue): (userId: Option<string>)
      reads table
      ensures userId.Some? <==> sessionId.PyStr? && sessionId.s in table.userIdBySessionId
      ensures userId.Some? ==> userId.value == table.userIdBySessionId[sessionId.s]
    {
      if sessionId.PyStr? && sessionId.s in table.userIdBySessionId
      then Some(table.userIdBySessionId[sessionId.s])
      else None
    }

    /** `current_user`: session cookie, then its user id, then `User.get` of that id. */
    function CurrentUser(request: Option<Request>, sessionName: Option<string>, users: seq<User>): (user: Option<User>)
      reads table
      ensures user.Some? ==> exists sid :: Auth.SessionCookie(request, sessionName) == Some(sid)
                                           && sid in table.userIdBySessionId
                                           && user.value.id == table.userIdBySessionId[sid]
                                           && user.value in users
      // and a cookie naming a session whose user is stored always finds a user
      ensures var cookie := Auth.SessionCookie(request, sessionName);
              user.Some? <==> && cookie.Some? && cookie.value in table.userIdBySessionId
                              && exists u :: u in users && u.id == table.userIdBySessionId[cookie.value]
    {
      var userId := UserIdForSessionId(FromOption(Auth.SessionCookie(request, sessionName)));
      GetUser(users, FromOption(userId))
    }

    /** `destroy_session`: needs a request, a non-empty session cookie and a non-empty user id
        for it; then deletes exactly that entry and answers true. */
    method DestroySession(request: Option<Request>, sessionName: Option<string>) returns (destroyed: bool)
      modifies table
      ensures destroyed <==> var cookie := Auth.SessionCookie(request, sessionName);
                             Present(cookie) && Present(old(UserIdForSessionId(PyStr(cookie.value))))
      ensures !destroyed ==> table.userIdBySessionId == old(table.userIdBySessionId)
      ensures destroyed ==> var sid := Auth.SessionCookie(request, sessionName).value;
                            table.userIdBySessionId == old(table.userIdBySessionId) - {sid}
                            && UserIdForSessionId(PyStr(sid)) == None
    {
      if request.None? {
        return false;
      }
      var sessionId := Auth.SessionCookie(request, sessionName);
      if !Present(sessionId) {
        return false;
      }
      var userId := UserIdForSessionId(PyStr(sessionId.value));
      if !Present(userId) {
        return false;
      }
      table.userIdBySessionId := table.userIdBySessionId - {sessionId.value};
      destroyed := true;
    }
  }

  /** Two authenticators over the one class-level table: a session the first creates is
      resolved by the second. */
  method SessionsAreShared(table: SessionTable<string>, userId: string, uuid: string) returns (seen: Option<string>)
    modifies table
    ensures seen == Some(userId)
  {
    var first := new SessionAuth(table);
    var second := new SessionAuth(table);
    var sid := first.CreateSession(PyStr(userId), uuid);
    seen := second.UserIdForSessionId(PyStr(sid.value));
  }
}
