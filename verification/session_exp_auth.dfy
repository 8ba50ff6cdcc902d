/** `SessionExpAuth` (0x02-Session_authentication/api/v1/auth/session_exp_auth.py): sessions
    that carry their creation time and lapse `session_duration` seconds after it. Times are
    integer microseconds; the clock is the `now` parameter. */
module SessionExpiry {
  import opened Common
  import opened Http
  import opened Users
  import Auth
  import opened SessionAuthentication

  // ---------------------------------------------------------------------------------------
  // `int(os.getenv('SESSION_DURATION'))`, falling back to 0 on any failure
  // ---------------------------------------------------------------------------------------

  /** The characters Python's `int()` strips around a number (its ASCII white space). */
  predicate IsSpace(c: char)
  {
    c == ' ' || 9 <= c as int <= 13 || 28 <= c as int <= 31
  }

  predicate IsDigit(c: char)
  {
    '0' <= c <= '9'
  }

  function StripLeft(s: string): (r: string)
    ensures |r| <= |s|
    ensures r == [] || !IsSpace(r[0])
  {
    if s != [] && IsSpace(s[0]) then StripLeft(s[1..]) else s
  }

  function StripRight(s: string): (r: string)
    ensures |r| <= |s|
    ensures r == [] || !IsSpace(r[|r| - 1])
  {
    if s != [] && IsSpace(s[|s| - 1]) then StripRight(s[..|s| - 1]) else s
  }

  function Strip(s: string): string
  {
    StripRight(StripLeft(s))
  }

  /** The digits of a decimal literal: digits, with single underscores only between two digits. */
  predicate IsDigitBody(b: string)
  {
    && |b| > 0
    && IsDigit(b[0])
    && IsDigit(b[|b| - 1])
    && (forall i :: 0 <= i < |b| ==> IsDigit(b[i]) || b[i] == '_')
    && (forall i :: 0 <= i < |b| - 1 ==> b[i] == '_' ==> b[i + 1] != '_')
  }

  /** The value of a digit body, underscores skipped. */
  function DigitsValue(b: string): (n: nat)
  {
    if b == [] then 0
    else if b[|b| - 1] == '_' then DigitsValue(b[..|b| - 1])
    else DigitsValue(b[..|b| - 1]) * 10 + (if IsDigit(b[|b| - 1]) then b[|b| - 1] as int - '0' as int else 0)
  }

  /** A stripped numeral: an optional sign, then a digit body. */
  function ParseSigned(t: string): Option<int>
  {
    var negative := |t| > 0 && t[0] == '-';
    var body := if |t| > 0 && (t[0] == '-' || t[0] == '+') then t[1..] else t;
    if IsDigitBody(body) then Some(if negative then -(DigitsValue(body) as int) else DigitsValue(body)) else None
  }

  /** Python's `int(s)` on a string, base 10: surrounding white space, an optional sign, then
      a digit body; `None` where Python raises `ValueError`. */
  function ParseInt(s: string): Option<int>
  {
    ParseSigned(Strip(s))
  }

  /** `session_duration`: the parsed setting, or 0 when it is unset or does not parse.
      Negative values are kept. */
  function ParseDuration(setting: Option<string>): (duration: int)
    ensures setting.None? ==> duration == 0
    ensures setting.Some? && ParseInt(setting.value).None? ==> duration == 0
    ensures setting.Some? && ParseInt(setting.value).Some? ==> duration == ParseInt(setting.value).value
  {
    match setting
    case None => 0
    case Some(s) => if ParseInt(s).Some? then ParseInt(s).value else 0
  }

  /** Decimal digits of a natural number, most significant first, without leading zeros. */
  function Decimal(n: nat): (r: string)
    decreases n
  {
    if n < 10 then ['0' + n as char] else Decimal(n / 10) + ['0' + (n % 10) as char]
  }

  /** `str(n)` for an integer. */
  function Show(n: int): string
  {
    if n < 0 then "-" + Decimal(-n) else Decimal(n)
  }

  lemma {:induction false} DecimalIsDigitBody(n: nat)
    ensures |Decimal(n)| > 0 && IsDigit(Decimal(n)[0])
    ensures forall i :: 0 <= i < |Decimal(n)| ==> IsDigit(Decimal(n)[i])
    ensures DigitsValue(Decimal(n)) == n
    decreases n
  {
    if n >= 10 {
      DecimalIsDigitBody(n / 10);
      var d := Decimal(n);
      assert d[..|d| - 1] == Decimal(n / 10);
    }
  }

  lemma StripUnspaced(s: string)
    requires |s| > 0 && !IsSpace(s[0]) && !IsSpace(s[|s| - 1])
    ensures Strip(s) == s
  {
  }

  lemma DecimalDigitBody(n: nat)
    ensures IsDigitBody(Decimal(n)) && DigitsValue(Decimal(n)) == n
  {
    DecimalIsDigitBody(n);
    var d := Decimal(n);
    assert forall i :: 0 <= i < |d| - 1 ==> d[i] != '_' by {
      forall i | 0 <= i < |d| - 1 ensures d[i] != '_' { assert IsDigit(d[i]); }
    }
  }

  /** A natural number's decimal digits read back as that number. */
  lemma ReadsDecimal(m: nat)
    ensures ParseInt(Decimal(m)) == Some(m)
  {
    DecimalDigitBody(m);
    var d := Decimal(m);
    StripUnspaced(d);
    assert d[0] != '-' && d[0] != '+';
  }

  /** A minus sign followed by a natural number's decimal digits reads back as its negation. */
  lemma ReadsNegatedDecimal(m: nat)
    ensures ParseInt("-" + Decimal(m)) == Some(-(m as int))
  {
    DecimalDigitBody(m);
    var s := "-" + Decimal(m);
    assert s[|s| - 1] == Decimal(m)[|Decimal(m)| - 1];
    StripUnspaced(s);
    assert s[1..] == Decimal(m);
  }

  /** Round trip: a duration written out the way Python prints an integer is read back as
      that integer, negative values included. */
  lemma DurationRoundTrip(n: int)
    ensures ParseDuration(Some(Show(n))) == n
  {
    if n < 0 {
      ReadsNegatedDecimal(-n);
      assert Show(n) == "-" + Decimal(-n);
    } else {
      ReadsDecimal(n);
      assert Show(n) == Decimal(n);
    }
  }

  /** An unset or unreadable setting means "never expires". */
  lemma UnreadableDurationIsZero()
    ensures ParseDuration(None) == 0
    ensures ParseDuration(Some("")) == 0
    ensures ParseDuration(Some("ten")) == 0
    ensures ParseDuration(Some("1__0")) == 0
  {
    assert Strip("") == "";
    StripUnspaced("ten");
    StripUnspaced("1__0");
    assert !IsDigitBody("1__0") by { assert "1__0"[1] == '_' && "1__0"[2] == '_'; }
    assert !IsDigitBody("ten") by { assert !IsDigit("ten"[0]); }
  }

  // ---------------------------------------------------------------------------------------
  // The expiry rule
  // ---------------------------------------------------------------------------------------

  const MicrosPerSecond: int := 1_000_000

  /** The dictionary `{'user_id': ..., 'created_at': ...}` stored per session;
      `createdAt` is `None` when the key is missing. */
  datatype SessionRecord = SessionRecord(userId: string, createdAt: Option<int>)

  /** `created_at + timedelta(seconds=duration) < now`: strictly past the deadline. */
  predicate Expired(createdAt: int, duration: int, now: int)
  {
    createdAt + duration * MicrosPerSecond < now
  }

  /** Whether a session created at `createdAt` still stands at `now`: always without a positive
      duration, never without a creation time, otherwise until strictly past its deadline. */
  predicate Live(createdAt: Option<int>, duration: int, now: int)
  {
    duration <= 0 || (createdAt.Some? && !Expired(createdAt.value, duration, now))
  }

  /** The user id a stored record still stands for at `now`. */
  function ResolveRecord(record: SessionRecord, duration: int, now: int): (userId: Option<string>)
    ensures userId.Some? ==> userId.value == record.userId
    ensures userId.Some? <==> Live(record.createdAt, duration, now)
  {
    if duration <= 0 then Some(record.userId)
    else if record.createdAt.None? then None
    else if Expired(record.createdAt.value, duration, now) then None
    else Some(record.userId)
  }

  /** The deadline itself still counts: a session lapses only strictly after it. */
  lemma ValidThroughDeadline(userId: string, createdAt: int, duration: int)
    requires duration > 0
    ensures ResolveRecord(SessionRecord(userId, Some(createdAt)), duration, createdAt + duration * MicrosPerSecond) == Some(userId)
    ensures ResolveRecord(SessionRecord(userId, Some(createdAt)), duration, createdAt + duration * MicrosPerSecond + 1).None?
  {
  }

  /** With a five-second duration, a session is valid four seconds after creation and gone after six. */
  lemma FiveSecondExample(userId: string, t: int)
    ensures ResolveRecord(SessionRecord(userId, Some(t)), 5, t + 4 * MicrosPerSecond) == Some(userId)
    ensures ResolveRecord(SessionRecord(userId, Some(t)), 5, t + 6 * MicrosPerSecond).None?
  {
  }

  /** Once lapsed, a record stays lapsed: time only makes it older. */
  lemma ExpiryIsPermanent(record: SessionRecord, duration: int, now: int, later: int)
    requires now <= later
    requires ResolveRecord(record, duration, now).None?
    ensures ResolveRecord(record, duration, later).None?
  {
  }

  // ---------------------------------------------------------------------------------------
  // The authenticator
  // ---------------------------------------------------------------------------------------

  class SessionExpAuth {
    const table: SessionTable<SessionRecord>
    const sessionDuration: int

    /** `__init__`: reads the `SESSION_DURATION` setting once. */
    constructor (table: SessionTable<SessionRecord>, durationSetting: Option<string>)
      ensures this.table == table
      ensures sessionDuration == ParseDuration(durationSetting)
    {
      this.table := table;
      sessionDuration := ParseDuration(durationSetting);
    }

    /** `create_session`: rejects a `None` or non-string user id; otherwise stores the user id
        with creation time `now` under the new id (replacing the plain entry the superclass
        writes first) and returns the id. */
    method CreateSession(userId: PyValue, uuid: string, now: int) returns (sessionId: Option<string>)
      modifies table
      ensures !userId.PyStr? ==> sessionId.None? && table.userIdBySessionId == old(table.userIdBySessionId)
      ensures userId.PyStr? ==> sessionId == Some(uuid)
                                && table.userIdBySessionId
                                   == old(table.userIdBySessionId)[uuid := SessionRecord(userId.s, Some(now))]
      ensures userId.PyStr? ==> UserIdForSessionId(PyStr(uuid), now) == Some(userId.s)
    {
      if !userId.PyStr? {
        return None;
      }
      table.userIdBySessionId := table.userIdBySessionId[uuid := SessionRecord(userId.s, Some(now))];
      sessionId := Some(uuid);
    }

    /** `user_id_for_session_id`: `None` for a `None`, non-string or unknown id; otherwise the
        stored record's user id while it has not lapsed at `now`. Lapsed entries stay in the table. */
    function UserIdForSessionId(sessionId: PyValue, now: int): (userId: Option<string>)
      reads table
      ensures userId.Some? ==> sessionId.PyStr? && sessionId.s in table.userIdBySessionId
                               && userId.value == table.userIdBySessionId[sessionId.s].userId
      ensures sessionId.PyStr? && sessionId.s in table.userIdBySessionId ==>
                userId == ResolveRecord(table.userIdBySessionId[sessionId.s], sessionDuration, now)
    {
      if sessionId.PyStr? && sessionId.s in table.userIdBySessionId
      then ResolveRecord(table.userIdBySessionId[sessionId.s], sessionDuration, now)
      else None
    }

    /** The inherited `current_user`, through this class's expiring lookup. */
    function CurrentUser(request: Option<Request>, sessionName: Option<string>, users: seq<User>, now: int): (user: Option<User>)
      reads table
      ensures user.Some? ==> exists sid :: Auth.SessionCookie(request, sessionName) == Some(sid)
                                           && UserIdForSessionId(PyStr(sid), now) == Some(user.value.id)
                                           && user.value in users
      // and a cookie naming a live session whose user is stored always finds a user
      ensures var cookie := Auth.SessionCookie(request, sessionName);
              user.Some? <==> && cookie.Some? && UserIdForSessionId(PyStr(cookie.value), now).Some?
                              && exists u :: u in users && u.id == UserIdForSessionId(PyStr(cookie.value), now).value
    {
      var userId := UserIdForSessionId(FromOption(Auth.SessionCookie(request, sessionName)), now);
      GetUser(users, FromOption(userId))
    }

    /** The inherited `destroy_session`, through this class's expiring lookup: a lapsed session
        is not destroyed and its entry stays. */
    method DestroySession(request: Option<Request>, sessionName: Option<string>, now: int) returns (destroyed: bool)
      modifies table
      ensures destroyed <==> var cookie := Auth.SessionCookie(request, sessionName);
                             Present(cookie) && Present(old(UserIdForSessionId(PyStr(cookie.value), now)))
      ensures !destroyed ==> table.userIdBySessionId == old(table.userIdBySessionId)
      ensures destroyed ==> var sid := Auth.SessionCookie(request, sessionName).value;
                            table.userIdBySessionId == old(table.userIdBySessionId) - {sid}
                            && UserIdForSessionId(PyStr(sid), now) == None
    {
      if request.None? {
        return false;
      }
      var sessionId := Auth.SessionCookie(request, sessionName);
      if !Present(sessionId) {
        return false;
      }
      var userId := UserIdForSessionId(PyStr(sessionId.value), now);
      if !Present(userId) {
        return false;
      }
      table.userIdBySessionId := table.userIdBySessionId - {sessionId.value};
      destroyed := true;
    }
  }
}
