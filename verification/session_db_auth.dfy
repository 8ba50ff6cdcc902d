/** `SessionDBAuth` (0x02-Session_authentication/api/v1/auth/session_db_auth.py): the expiring
    sessions, also saved as `UserSession` records of a durable table. Lookups consult only that
    table and delete a record they find lapsed. */
module SessionDb {
  import opened Common
  import opened Http
  import opened Users
  import Auth
  import opened SessionAuthentication
  import opened SessionExpiry

  /** A `UserSession` record. `create_session` saves one even for a rejected user id, so the
      user id is any Python value and the session id may be `None`. */
  datatype UserSession = UserSession(userId: PyValue, sessionId: Option<string>, createdAt: Option<int>)

  /** `UserSession.search({'session_id': sid})[0]`: the position of the first record with that
      session id, in storage order. */
  function FirstSessionIndex(records: seq<UserSession>, sessionId: string): (i: Option<nat>)
    ensures i.None? <==> forall k :: 0 <= k < |records| ==> records[k].sessionId != Some(sessionId)
    ensures i.Some? ==> i.value < |records| && records[i.value].sessionId == Some(sessionId)
                        && forall k :: 0 <= k < i.value ==> records[k].sessionId != Some(sessionId)
  {
    if records == [] then None
    else if records[0].sessionId == Some(sessionId) then Some(0)
    else
      match FirstSessionIndex(records[1..], sessionId)
      case None => None
      case Some(k) => Some(k + 1)
  }

  /** `remove()` of the record at position `i`: every other record stays, in order. */
  function RemoveAt(records: seq<UserSession>, i: nat): (r: seq<UserSession>)
    requires i < |records|
    ensures |r| == |records| - 1
    ensures forall k :: 0 <= k < i ==> r[k] == records[k]
    ensures forall k :: i <= k < |r| ==> r[k] == records[k + 1]
  {
    records[..i] + records[i + 1..]
  }

  /** Removes the first record with that session id, if there is one. */
  function DropSession(records: seq<UserSession>, sessionId: string): (r: seq<UserSession>)
    ensures FirstSessionIndex(records, sessionId).None? <==> r == records
    ensures |r| == if FirstSessionIndex(records, sessionId).Some? then |records| - 1 else |records|
  {
    match FirstSessionIndex(records, sessionId)
    case None => records
    case Some(i) => RemoveAt(records, i)
  }

  /** The answer of a lookup and the table it leaves behind. */
  datatype Lookup = Lookup(userId: PyValue, records: seq<UserSession>)

  /** `user_id_for_session_id` over the durable table at `now`. */
  function Resolve(records: seq<UserSession>, sessionId: PyValue, duration: int, now: int): (r: Lookup)
    // the table changes only by losing the first record for that id, and only when it has a
    // creation time and lapsed (a record without one is kept and answers nothing)
    ensures r.records != records ==>
              && sessionId.PyStr? && r.userId == PyNone
              && FirstSessionIndex(records, sessionId.s).Some?
              && var i := FirstSessionIndex(records, sessionId.s).value;
                 && duration > 0 && records[i].createdAt.Some?
                 && Expired(records[i].createdAt.value, duration, now)
                 && r.records == RemoveAt(records, i)
    // an answer comes from the first record for that id, which still stands
    ensures r.userId != PyNone ==>
              && sessionId.PyStr? && r.records == records
              && FirstSessionIndex(records, sessionId.s).Some?
              && var i := FirstSessionIndex(records, sessionId.s).value;
                 Live(records[i].createdAt, duration, now) && r.userId == records[i].userId
    // and the first record for that id, while it stands, always gives its user id
    ensures sessionId.PyStr? && FirstSessionIndex(records, sessionId.s).Some?
            && Live(records[FirstSessionIndex(records, sessionId.s).value].createdAt, duration, now) ==>
              r == Lookup(records[FirstSessionIndex(records, sessionId.s).value].userId, records)
    // a lapsed record is deleted, as long as it has a creation time
    ensures sessionId.PyStr? && FirstSessionIndex(records, sessionId.s).Some? ==>
              var i := FirstSessionIndex(records, sessionId.s).value;
              duration > 0 && records[i].createdAt.Some? && Expired(records[i].createdAt.value, duration, now) ==>
                r == Lookup(PyNone, RemoveAt(records, i))
  {
    if !sessionId.PyStr? then Lookup(PyNone, records)
    else
      match FirstSessionIndex(records, sessionId.s)
      case None => Lookup(PyNone, records)
      case Some(i) =>
        var rec := records[i];
        if duration <= 0 then Lookup(rec.userId, records)
        else if rec.createdAt.None? then Lookup(PyNone, records)
        else if Expired(rec.createdAt.value, duration, now) then Lookup(PyNone, RemoveAt(records, i))
        else Lookup(rec.userId, records)
  }

  /** When session ids are unique in the table, a lapsed session is gone for good: the lookup
      that finds it lapsed deletes it, and no later lookup finds anything for that id. */
  lemma {:induction false} LapsedSessionIsGone(records: seq<UserSession>, sid: string, duration: int, now: int, later: int)
    requires forall j, k :: 0 <= j < k < |records| && records[j].sessionId == Some(sid) ==> records[k].sessionId != Some(sid)
    requires FirstSessionIndex(records, sid).Some?
    requires var rec := records[FirstSessionIndex(records, sid).value];
             duration > 0 && rec.createdAt.Some? && Expired(rec.createdAt.value, duration, now)
    ensures Resolve(records, PyStr(sid), duration, now).userId == PyNone
    ensures var after := Resolve(records, PyStr(sid), duration, now).records;
            FirstSessionIndex(after, sid).None? && Resolve(after, PyStr(sid), duration, later) == Lookup(PyNone, after)
  {
    var i := FirstSessionIndex(records, sid).value;
    var after := Resolve(records, PyStr(sid), duration, now).records;
    assert after == RemoveAt(records, i);
    forall k | 0 <= k < |after| ensures after[k].sessionId != Some(sid) {
      if k < i {
        assert after[k] == records[k];
      } else {
        assert after[k] == records[k + 1];
      }
    }
  }

  /** Without a positive duration a lookup never changes the table. */
  lemma NoDurationKeepsTable(records: seq<UserSession>, sessionId: PyValue, duration: int, now: int)
    requires duration <= 0
    ensures Resolve(records, sessionId, duration, now).records == records
  {
  }

  /** The durable `UserSession` table, loaded from its file when the authenticator starts. */
  class UserSessionTable {
    var records: seq<UserSession>

    constructor (loaded: seq<UserSession>)
      ensures records == loaded
    {
      records := loaded;
    }
  }

  class SessionDbAuth {
    const exp: SessionExpAuth
    const store: UserSessionTable

    /** `__init__`: the expiring authenticator's setup, then `UserSession.load_from_file()`. */
    constructor (table: SessionTable<SessionRecord>, durationSetting: Option<string>, loaded: seq<UserSession>)
      ensures exp.table == table && exp.sessionDuration == ParseDuration(durationSetting)
      ensures fresh(store) && store.records == loaded
    {
      exp := new SessionExpAuth(table, durationSetting);
      store := new UserSessionTable(loaded);
    }

    /** `create_session`: the expiring authenticator's `create_session`, then a `UserSession`
        record saved unconditionally, even when that call returned `None`. */
    method CreateSession(userId: PyValue, uuid: string, now: int) returns (sessionId: Option<string>)
      modifies exp.table, store
      ensures sessionId == if userId.PyStr? then Some(uuid) else None
      ensures exp.table.userIdBySessionId == if userId.PyStr?
                                             then old(exp.table.userIdBySessionId)[uuid := SessionRecord(userId.s, Some(now))]
                                             else old(exp.table.userIdBySessionId)
      ensures store.records == old(store.records) + [UserSession(userId, sessionId, Some(now))]
      ensures userId.PyStr? && FirstSessionIndex(old(store.records), uuid).None? ==>
                Resolve(store.records, PyStr(uuid), exp.sessionDuration, now) == Lookup(userId, store.records)
    {
      sessionId := exp.CreateSession(userId, uuid, now);
      store.records := store.records + [UserSession(userId, sessionId, Some(now))];
      if userId.PyStr? && FirstSessionIndex(old(store.records), uuid).None? {
        var last := |store.records| - 1;
        assert store.records[last].sessionId == Some(uuid);
        assert forall k :: 0 <= k < last ==> store.records[k] == old(store.records)[k];
        assert FirstSessionIndex(store.records, uuid) == Some(last);
      }
    }

    /** `user_id_for_session_id`: searches the durable table, deletes the first record for the
        id when it has lapsed, and answers as `Resolve` does. */
    method UserIdForSessionId(sessionId: PyValue, now: int) returns (userId: PyValue)
      modifies store
      ensures Lookup(userId, store.records) == Resolve(old(store.records), sessionId, exp.sessionDuration, now)
    {
      if !sessionId.PyStr? {
        return PyNone;
      }
      var found := FirstSessionIndex(store.records, sessionId.s);
      if found.None? {
        return PyNone;
      }
      var record := store.records[found.value];
      if exp.sessionDuration <= 0 {
        return record.userId;
      }
      if record.createdAt.None? {
        return PyNone;
      }
      if Expired(record.createdAt.value, exp.sessionDuration, now) {
        store.records := RemoveAt(store.records, found.value);
        return PyNone;
      }
      return record.userId;
    }

    /** The inherited `current_user`, through the durable lookup (which may delete a lapsed record). */
    method CurrentUser(request: Option<Request>, sessionName: Option<string>, users: seq<User>, now: int) returns (user: Option<User>)
      modifies store
      ensures var r := Resolve(old(store.records), FromOption(Auth.SessionCookie(request, sessionName)), exp.sessionDuration, now);
              user == GetUser(users, r.userId) && store.records == r.records
    {
      var userId := UserIdForSessionId(FromOption(Auth.SessionCookie(request, sessionName)), now);
      user := GetUser(users, userId);
    }

    /** `destroy_session`: needs a non-empty session cookie and a truthy user id for it (the
        lookup may itself delete a lapsed record); then removes the first record for that id. */
    method DestroySession(request: Option<Request>, sessionName: Option<string>, now: int) returns (destroyed: bool)
      modifies store
      ensures !Present(Auth.SessionCookie(request, sessionName)) ==> !destroyed && store.records == old(store.records)
      ensures Present(Auth.SessionCookie(request, sessionName)) ==>
                var sid := Auth.SessionCookie(request, sessionName).value;
                var r := Resolve(old(store.records), PyStr(sid), exp.sessionDuration, now);
                && destroyed == Truthy(r.userId)
                && store.records == (if destroyed then DropSession(r.records, sid) else r.records)
      ensures destroyed ==> |store.records| == |old(store.records)| - 1
    {
      if request.None? {
        return false;
      }
      var sessionId := Auth.SessionCookie(request, sessionName);
      if !Present(sessionId) {
        return false;
      }
      var userId := UserIdForSessionId(PyStr(sessionId.value), now);
      if !Truthy(userId) {
        return false;
      }
      // the record the lookup answered from is still there, so `[0]` cannot fail
      var found := FirstSessionIndex(store.records, sessionId.value);
      store.records := RemoveAt(store.records, found.value);
      destroyed := true;
    }
  }
}
