/** The base authenticator of the session exercise (`Auth` in
    0x02-Session_authentication/api/v1/auth/auth.py): which paths need authentication,
    and how the credentials are read off a request. Every method is pure. */
module Auth {
  import opened Common
  import opened Http
  import opened Users

  /** An excluded entry ending in `*` is a wildcard over the literal text before the `*`. */
  predicate IsWildcard(entry: string)
  {
    EndsWith(entry, '*')
  }

  /** Whether one excluded entry exempts an (already normalised) path: a wildcard entry by
      plain prefix, any other entry by equality. */
  predicate Exempts(entry: string, path: string)
  {
    if IsWildcard(entry) then entry[..|entry| - 1] <= path else entry == path
  }

  /** The loop over the excluded entries, in list order, leaving on the first entry that exempts. */
  function ScanExcluded(excluded: seq<string>, path: string): bool
  {
    if excluded == [] then true
    else if Exempts(excluded[0], path) then false
    else ScanExcluded(excluded[1..], path)
  }

  /** The scan answers true exactly when no entry exempts the path. */
  lemma {:induction false} ScanFindsExemption(excluded: seq<string>, path: string)
    ensures ScanExcluded(excluded, path) <==> forall i :: 0 <= i < |excluded| ==> !Exempts(excluded[i], path)
  {
    if excluded != [] && !Exempts(excluded[0], path) {
      ScanFindsExemption(excluded[1..], path);
      assert forall i :: 1 <= i < |excluded| ==> excluded[i] == excluded[1..][i - 1];
    }
  }

  /** `require_auth`: true when authentication is needed. Absent arguments fail closed. */
  function RequireAuth(path: Option<string>, excluded: Option<seq<string>>): (required: bool)
    ensures path.None? || excluded.None? ==> required
  {
    if path.None? || excluded.None? then true
    else ScanExcluded(excluded.value, WithTrailingSlash(path.value))
  }

  /** With both arguments given, authentication is needed exactly when no excluded entry exempts
      the normalised path. */
  lemma RequireAuthMeaning(path: string, excluded: seq<string>)
    ensures RequireAuth(Some(path), Some(excluded)) <==> forall e :: e in excluded ==> !Exempts(e, WithTrailingSlash(path))
  {
    ScanFindsExemption(excluded, WithTrailingSlash(path));
  }

  /** `authorization_header`: the `Authorization` header verbatim, or `None`. */
  function AuthorizationHeader(request: Option<Request>): (header: Option<string>)
    ensures request.None? ==> header.None?
    ensures request.Some? ==> header == HeaderGet(request.value.headers, "Authorization")
  {
    if request.None? then None else HeaderGet(request.value.headers, "Authorization")
  }

  /** `session_cookie`: the value of the cookie named by the `SESSION_NAME` setting, or `None`. */
  function SessionCookie(request: Option<Request>, sessionName: Option<string>): (cookie: Option<string>)
    ensures cookie.Some? <==> request.Some? && sessionName.Some? && sessionName.value in request.value.cookies
    ensures cookie.Some? ==> cookie.value == request.value.cookies[sessionName.value]
  {
    if request.None? then None else CookieGet(request.value.cookies, sessionName)
  }

  /** The base `current_user`: no authenticator of this kind ever resolves a user. */
  function CurrentUser(request: Option<Request>): (user: Option<User>)
    ensures user.None?
  {
    None
  }

  /** Adding the trailing `/` oneself changes nothing: the path is normalised first. */
  lemma TrailingSlashIrrelevant(path: string, excluded: Option<seq<string>>)
    requires !EndsWith(path, '/')
    ensures RequireAuth(Some(path), excluded) == RequireAuth(Some(path + "/"), excluded)
  {
    assert WithTrailingSlash(path + "/") == path + "/";
  }

  /** The answer depends only on which entries are listed, not on their order or repetition. */
  lemma ExcludedOrderIrrelevant(path: string, excluded: seq<string>, reordered: seq<string>)
    requires forall e :: e in excluded <==> e in reordered
    ensures RequireAuth(Some(path), Some(excluded)) == RequireAuth(Some(path), Some(reordered))
  {
    RequireAuthMeaning(path, excluded);
    RequireAuthMeaning(path, reordered);
  }

  /** An empty excluded list exempts nothing. */
  lemma EmptyExcludedRequiresAuth(path: string)
    ensures RequireAuth(Some(path), Some([]))
  {
  }

  /** An entry without `*` exempts exactly the normalised path equal to it. */
  lemma ExactEntryExemptsOnlyItself(entry: string, path: string)
    requires !IsWildcard(entry)
    ensures !RequireAuth(Some(path), Some([entry])) <==> entry == WithTrailingSlash(path)
  {
    RequireAuthMeaning(path, [entry]);
  }

  /** A wildcard entry is a literal prefix test: `/status*` exempts `/status/`, `/status/123`
      and also `/statuses`, but not `/stat`. */
  lemma WildcardIsLiteralPrefix()
    ensures !RequireAuth(Some("/status/"), Some(["/status*"]))
    ensures !RequireAuth(Some("/status/123"), Some(["/status*"]))
    ensures !RequireAuth(Some("/statuses"), Some(["/status*"]))
    ensures RequireAuth(Some("/stat"), Some(["/status*"]))
  {
    assert "/status" <= "/status/";
    assert "/status" <= "/status/123/";
    assert "/status" <= "/statuses/";
    assert !("/status" <= "/stat/") by { assert "/stat/"[5] != "/status"[5]; }
  }
}
