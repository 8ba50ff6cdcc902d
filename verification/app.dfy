/** The application wiring (0x02-Session_authentication/api/v1/app.py): the authenticator chosen
    once from the `AUTH_TYPE` setting, and the `before_request` gate every request goes through. */
module App {
  import opened Common
  import opened Http
  import opened Users
  import Auth
  import opened SessionAuthentication
  import opened SessionExpiry
  import opened SessionDb

  datatype AuthType = BasicAuthType | BaseAuthType | SessionAuthType | SessionExpAuthType | SessionDbAuthType

  /** The `AUTH_TYPE` value that selects each authenticator. */
  function AuthTypeName(t: AuthType): string
  {
    match t
    case BasicAuthType => "basic_auth"
    case BaseAuthType => "auth"
    case SessionAuthType => "session_auth"
    case SessionExpAuthType => "session_exp_auth"
    case SessionDbAuthType => "session_db_auth"
  }

  /** The `if`/`elif` chain over `AUTH_TYPE`: the authenticator named, or none for any other value. */
  function SelectAuthType(setting: Option<string>): (t: Option<AuthType>)
    ensures t.Some? ==> setting == Some(AuthTypeName(t.value))
    ensures t.None? ==> setting.None? || forall k :: AuthTypeName(k) != setting.value
  {
    if setting == Some("basic_auth") then Some(BasicAuthType)
    else if setting == Some("auth") then Some(BaseAuthType)
    else if setting == Some("session_auth") then Some(SessionAuthType)
    else if setting == Some("session_exp_auth") then Some(SessionExpAuthType)
    else if setting == Some("session_db_auth") then Some(SessionDbAuthType)
    else None
  }

  /** Each authenticator is selected by exactly its own name. */
  lemma SelectionIsOneToOne(t: AuthType, setting: Option<string>)
    ensures SelectAuthType(Some(AuthTypeName(t))) == Some(t)
    ensures SelectAuthType(setting) == Some(t) <==> setting == Some(AuthTypeName(t))
  {
  }

  /** The module-level `auth` object: one variant per authenticator class. The session variants
      hold their (mutable) state; the two stateless ones need none. */
  datatype Authenticator =
    | BasicAuth
    | BaseAuth
    | SessionAuthenticator(session: SessionAuth)
    | SessionExpAuthenticator(exp: SessionExpAuth)
    | SessionDbAuthenticator(db: SessionDbAuth)

  function TypeOf(auth: Authenticator): AuthType
  {
    match auth
    case BasicAuth => BasicAuthType
    case BaseAuth => BaseAuthType
    case SessionAuthenticator(_) => SessionAuthType
    case SessionExpAuthenticator(_) => SessionExpAuthType
    case SessionDbAuthenticator(_) => SessionDbAuthType
  }

  /** The objects an authenticator may change. */
  function Footprint(auth: Option<Authenticator>): set<object>
  {
    match auth
    case Some(SessionAuthenticator(s)) => {s.table}
    case Some(SessionExpAuthenticator(e)) => {e.table}
    case Some(SessionDbAuthenticator(d)) => {d.exp.table, d.store}
    case _ => {}
  }

  predicate IsSessionBased(auth: Option<Authenticator>)
  {
    auth.Some? && (auth.value.SessionAuthenticator? || auth.value.SessionExpAuthenticator? || auth.value.SessionDbAuthenticator?)
  }

  /** Startup: the authenticator `AUTH_TYPE` names, built over the class-level session tables. */
  method MakeAuth(setting: Option<string>, plainTable: SessionTable<string>, stampedTable: SessionTable<SessionRecord>,
                  durationSetting: Option<string>, loaded: seq<UserSession>)
    returns (auth: Option<Authenticator>)
    ensures auth.None? <==> SelectAuthType(setting).None?
    ensures auth.Some? ==> TypeOf(auth.value) == SelectAuthType(setting).value
    ensures auth.Some? && auth.value.SessionAuthenticator? ==> auth.value.session.table == plainTable
    ensures auth.Some? && auth.value.SessionExpAuthenticator? ==>
              auth.value.exp.table == stampedTable && auth.value.exp.sessionDuration == ParseDuration(durationSetting)
    ensures auth.Some? && auth.value.SessionDbAuthenticator? ==>
              && auth.value.db.exp.table == stampedTable
              && auth.value.db.exp.sessionDuration == ParseDuration(durationSetting)
              && fresh(auth.value.db.store) && auth.value.db.store.records == loaded
  {
    var t := SelectAuthType(setting);
    if t == Some(BasicAuthType) {
      auth := Some(BasicAuth);
    } else if t == Some(BaseAuthType) {
      auth := Some(BaseAuth);
    } else if t == Some(SessionAuthType) {
      var s := new SessionAuth(plainTable);
      auth := Some(SessionAuthenticator(s));
    } else if t == Some(SessionExpAuthType) {
      var e := new SessionExpAuth(stampedTable, durationSetting);
      auth := Some(SessionExpAuthenticator(e));
    } else if t == Some(SessionDbAuthType) {
      var d := new SessionDbAuth(stampedTable, durationSetting, loaded);
      auth := Some(SessionDbAuthenticator(d));
    } else {
      auth := None;
    }
  }

  /** The paths `before_request` exempts. */
  const ExcludedPaths: seq<string> :=
    ["/api/v1/status/", "/api/v1/unauthorized/", "/api/v1/forbidden/", "/api/v1/auth_session/login/"]

  datatype GateOutcome = Proceed | ProceedAs(user: User) | Abort(status: int)

  /** The gate's decision once an authenticator is configured: exempt paths pass; otherwise no
      credential at all is 401, a credential that resolves to no user is 403, and a resolved
      user is attached to the request. */
  function GateDecision(required: bool, header: Option<string>, cookie: Option<string>, user: Option<User>): (o: GateOutcome)
    ensures o == Proceed <==> !required
    ensures o == Abort(401) <==> required && !Present(header) && !Present(cookie)
    ensures o == Abort(403) <==> required && (Present(header) || Present(cookie)) && user.None?
    ensures o.ProceedAs? <==> required && (Present(header) || Present(cookie)) && user.Some?
    ensures o.ProceedAs? ==> user == Some(o.user)
    ensures o.Abort? ==> o.status == 401 || o.status == 403
  {
    if !required then Proceed
    else if !Present(header) && !Present(cookie) then Abort(401)
    else if user.None? then Abort(403)
    else ProceedAs(user.value)
  }

  /** The credential check comes before resolution: without a credential the user found does not
      matter, and the answer is never 403. */
  lemma MissingCredentialIsNeverForbidden(required: bool, header: Option<string>, cookie: Option<string>, u1: Option<User>, u2: Option<User>)
    requires !Present(header) && !Present(cookie)
    ensures GateDecision(required, header, cookie, u1) == GateDecision(required, header, cookie, u2)
    ensures GateDecision(required, header, cookie, u1) != Abort(403)
  {
  }

  /** The status page and the login route are exempt without their trailing `/`. */
  lemma ExcludedPathsExamples()
    ensures !Auth.RequireAuth(Some("/api/v1/status"), Some(ExcludedPaths))
    ensures !Auth.RequireAuth(Some("/api/v1/auth_session/login"), Some(ExcludedPaths))
  {
    assert Auth.Exempts(ExcludedPaths[0], "/api/v1/status/");
    assert Auth.Exempts(ExcludedPaths[3], "/api/v1/auth_session/login/");
    Auth.RequireAuthMeaning("/api/v1/status", ExcludedPaths);
    Auth.RequireAuthMeaning("/api/v1/auth_session/login", ExcludedPaths);
  }

  /** The users resource is not exempt. */
  lemma UsersPathIsGuarded()
    ensures Auth.RequireAuth(Some("/api/v1/users"), Some(ExcludedPaths))
  {
    var p := "/api/v1/users/";
    forall i | 0 <= i < |ExcludedPaths| ensures !Auth.Exempts(ExcludedPaths[i], p) {
      assert ExcludedPaths[i][8] != p[8] || ExcludedPaths[i][9] != p[9];
    }
    Auth.ScanFindsExemption(ExcludedPaths, p);
  }

  /** The user the configured authenticator's `current_user` finds, read in the current state. */
  function ResolvedUser(auth: Authenticator, request: Request, sessionName: Option<string>, users: seq<User>,
                        basicUser: Option<User>, now: int): Option<User>
    reads Footprint(Some(auth))
  {
    match auth
    case BasicAuth => basicUser
    case BaseAuth => Auth.CurrentUser(Some(request))
    case SessionAuthenticator(s) => s.CurrentUser(Some(request), sessionName, users)
    case SessionExpAuthenticator(e) => e.CurrentUser(Some(request), sessionName, users, now)
    case SessionDbAuthenticator(d) =>
      GetUser(users, Resolve(d.store.records, FromOption(Auth.SessionCookie(Some(request), sessionName)),
                             d.exp.sessionDuration, now).userId)
  }

  /** The outcome `before_request` reaches for a request, read in the current state. */
  function Gate(auth: Authenticator, request: Request, sessionName: Option<string>, users: seq<User>,
                basicUser: Option<User>, now: int): GateOutcome
    reads Footprint(Some(auth))
  {
    GateDecision(Auth.RequireAuth(Some(request.path), Some(ExcludedPaths)),
                 Auth.AuthorizationHeader(Some(request)),
                 Auth.SessionCookie(Some(request), sessionName),
                 ResolvedUser(auth, request, sessionName, users, basicUser, now))
  }

  /** `auth.current_user(request)` on whichever authenticator is configured. `basicUser` stands
      for the answer of the Basic authenticator, whose code is not part of this model. */
  method CurrentUser(auth: Authenticator, request: Request, sessionName: Option<string>, users: seq<User>,
                     basicUser: Option<User>, now: int)
    returns (user: Option<User>)
    modifies Footprint(Some(auth))
    ensures user == old(ResolvedUser(auth, request, sessionName, users, basicUser, now))
    ensures !auth.SessionDbAuthenticator? ==> unchanged(Footprint(Some(auth)))
    ensures auth.SessionDbAuthenticator? ==>
              && unchanged(auth.db.exp.table)
              && auth.db.store.records
                 == Resolve(old(auth.db.store.records), FromOption(Auth.SessionCookie(Some(request), sessionName)),
                            auth.db.exp.sessionDuration, now).records
  {
    match auth
    case BasicAuth => user := basicUser;
    case BaseAuth => user := Auth.CurrentUser(Some(request));
    case SessionAuthenticator(s) => user := s.CurrentUser(Some(request), sessionName, users);
    case SessionExpAuthenticator(e) => user := e.CurrentUser(Some(request), sessionName, users, now);
    case SessionDbAuthenticator(d) => user := d.CurrentUser(Some(request), sessionName, users, now);
  }

  /** `before_request`: no authenticator lets everything through; otherwise the gate decides,
      and the user is resolved (possibly deleting a lapsed durable session) only when the path
      needs authentication and some credential is present. */
  method BeforeRequest(auth: Option<Authenticator>, request: Request, sessionName: Option<string>, users: seq<User>,
                       basicUser: Option<User>, now: int)
    returns (outcome: GateOutcome)
    modifies Footprint(auth)
    ensures auth.None? ==> outcome == Proceed
    ensures auth.Some? ==> outcome == old(Gate(auth.value, request, sessionName, users, basicUser, now))
    ensures outcome == Proceed || outcome == Abort(401) ==> unchanged(Footprint(auth))
    // once a user is looked up, only the durable store changes, exactly as its lookup says
    ensures outcome == Abort(403) || outcome.ProceedAs? ==>
              && auth.Some?
              && (!auth.value.SessionDbAuthenticator? ==> unchanged(Footprint(auth)))
              && (auth.value.SessionDbAuthenticator? ==>
                    && unchanged(auth.value.db.exp.table)
                    && auth.value.db.store.records
                       == Resolve(old(auth.value.db.store.records),
                                  FromOption(Auth.SessionCookie(Some(request), sessionName)),
                                  auth.value.db.exp.sessionDuration, now).records)
  {
    if auth.None? {
      return Proceed;
    }
    if Auth.RequireAuth(Some(request.path), Some(ExcludedPaths)) {
      if !Present(Auth.AuthorizationHeader(Some(request))) && !Present(Auth.SessionCookie(Some(request), sessionName)) {
        return Abort(401);
      }
      var user := CurrentUser(auth.value, request, sessionName, users, basicUser, now);
      if user.None? {
        return Abort(403);
      }
      return ProceedAs(user.value);
    }
    return Proceed;
  }
}
