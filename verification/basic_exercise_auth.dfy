/** The base authenticator of the Basic-authentication exercise (`Auth` in
    0x01-Basic_authentication/api/v1/auth/auth.py): exact-match exemptions only.
    Its `BasicAuth` subclass adds nothing, so it has no members of its own here. */
module BasicExerciseAuth {
  import opened Common
  import opened Http
  import opened Users
  import SessionExerciseAuth = Auth

  /** `require_auth`: true when authentication is needed; the normalised path is exempt only
      when it is itself one of the excluded entries. */
  function RequireAuth(path: Option<string>, excluded: Option<seq<string>>): (required: bool)
    ensures path.None? || excluded.None? ==> required
    ensures path.Some? && excluded.Some? ==> (required <==> WithTrailingSlash(path.value) !in excluded.value)
  {
    if path.None? || excluded.None? then true
    else WithTrailingSlash(path.value) !in excluded.value
  }

  /** `authorization_header`: the header verbatim (an empty value included), or `None`. */
  function AuthorizationHeader(request: Option<Request>): (header: Option<string>)
    ensures request.None? ==> header.None?
    ensures request.Some? ==> header == HeaderGet(request.value.headers, "Authorization")
  {
    if request.None? then None
    else
      var authKey := HeaderGet(request.value.headers, "Authorization");
      if Present(authKey) then authKey else authKey
  }

  /** `current_user` is never resolved by this authenticator. */
  function CurrentUser(request: Option<Request>): (user: Option<User>)
    ensures user.None?
  {
    None
  }

  /** When no excluded entry ends in `*`, the session exercise's `require_auth` answers exactly
      as this exact-match one does; the wildcard is the only behaviour it adds. */
  lemma {:induction false} WildcardFreeListsAgree(path: Option<string>, excluded: Option<seq<string>>)
    requires excluded.Some? ==> forall e :: e in excluded.value ==> !SessionExerciseAuth.IsWildcard(e)
    ensures SessionExerciseAuth.RequireAuth(path, excluded) == RequireAuth(path, excluded)
  {
    if path.Some? && excluded.Some? {
      var p := WithTrailingSlash(path.value);
      SessionExerciseAuth.RequireAuthMeaning(path.value, excluded.value);
      if p in excluded.value {
        assert SessionExerciseAuth.Exempts(p, p);
      }
    }
  }

  /** The header is handed on verbatim even when empty; the session exercise reads it the same way. */
  lemma HeaderReadingAgrees(request: Option<Request>)
    ensures AuthorizationHeader(request) == SessionExerciseAuth.AuthorizationHeader(request)
  {
  }
}
