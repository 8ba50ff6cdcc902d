# Authentication exercises, modelled in Dafny

This project models the authentication core of a four-part Python exercise repository:

- the request gate of a small web API (`before_request`), which decides per request whether
  credentials are needed, rejects a request without any credential (401) or with one that resolves
  to no user (403), and attaches the resolved user otherwise;
- the authenticator hierarchy behind it: the base `Auth` of the Basic-authentication exercise
  (exact-match exempt paths) and of the Session exercise (with `*` prefix wildcards), `SessionAuth`
  (a class-level dictionary `session_id -> user_id`), `SessionExpAuth` (records stamped with their
  creation time, expiring after `SESSION_DURATION` seconds) and `SessionDBAuth` (a durable
  `UserSession` table, where a lookup deletes a lapsed record);
- the `AUTH_TYPE` selection and the session login and logout views;
- the user table (`DB`: key allow-list, `add_user`, `find_user_by`, `update_user`) and the
  authentication service (`register_user`, `valid_login`, `create_session`) of the user
  authentication service exercise;
- `filter_datum`, the PII redaction of the personal-data exercise.

One Dafny module per source file. The module-level and class-level state of the source becomes
classes: `SessionTable` is the class-level dictionary shared by every instance (each authenticator
holds a reference to it), `UserSessionTable` the durable session table, `DB` the user table and
`AuthService` the service over it. Methods that change that state carry `modifies` clauses and state
the new state; the rules they follow are specification functions (`Auth.RequireAuth`,
`SessionExpiry.ResolveRecord`, `SessionDb.Resolve`, `App.GateDecision`, `UserDb.FirstMatch`,
`FilteredLogger.MatchAt`, ...) with lemmas about them.

Python's dynamic values are modelled explicitly: `PyValue` is `None`, a `str` or another object of
known truthiness, so `isinstance(user_id, str)` checks and `if not x` tests keep their exact
meaning. Time is an integer count of microseconds passed in as `now`; the `uuid4()` result, the
password hash and the password checks are parameters.

Where the intended behaviour described for the system differs from the code, the model follows the
code:

- `/status*` is described as exempting `/status/` and `/status/123/` but not `/statuses/`. The code
  tests the literal prefix before `*` (`re.match` of the escaped prefix), so `/statuses/` is exempt
  as well (`Auth.WildcardIsLiteralPrefix`).
- The durable variant's `destroy_session` is described as deleting whatever record the cookie
  names. The code first runs `user_id_for_session_id`, so an expired record is not destroyed (it is
  deleted by that lookup, and the answer is `False`), and a live record whose stored user id is
  empty is kept (`SessionDb.SessionDbAuth.DestroySession`).
- The durable variant's `create_session` saves a `UserSession` even when the superclass refused the
  user id and returned `None`; the record then has no session id and keeps the user id as it was passed
  (`SessionDb.SessionDbAuth.CreateSession`).

## Model

| member | source | states |
|---|---|---|
| Common.WithTrailingSlash | 0x02-Session_authentication/api/v1/auth/auth.py:51-52 | the normalised path ends in `/`; a path already ending in `/` is kept, any other gets exactly one `/` appended |
| Http.HeaderGet | 0x02-Session_authentication/api/v1/auth/auth.py:73 | the value of the first header whose name equals `Authorization` ignoring ASCII case, and `None` exactly when no header name matches |
| Http.CookieGet | 0x02-Session_authentication/api/v1/auth/auth.py:86 | the cookie named by `SESSION_NAME`; `None` when the name is unset or no such cookie was sent |
| Users.GetUser | 0x02-Session_authentication/api/v1/auth/session_auth.py:35 | `User.get`: a stored user with that id, and `None` exactly when the id is not a string or no stored user has it |
| Users.SearchByEmail | 0x02-Session_authentication/api/v1/views/session_auth.py:21 | `User.search({'email': ...})`: holds exactly the stored users with that email |
| Auth.ScanFindsExemption | 0x02-Session_authentication/api/v1/auth/auth.py:53-60 | the loop over the excluded entries answers true exactly when no entry exempts the path |
| Auth.RequireAuth | 0x02-Session_authentication/api/v1/auth/auth.py:49-50 | true when the path or the list is `None` |
| Auth.Exempts | 0x02-Session_authentication/api/v1/auth/auth.py:54-58 | an entry ending in `*` exempts every path that starts with the rest of it, read literally; any other entry exempts only the path equal to it |
| Auth.ScanExcluded | 0x02-Session_authentication/api/v1/auth/auth.py:53-60 | the loop over the excluded entries, stopping at the first that exempts; its answer is characterised by `Auth.ScanFindsExemption` |
| Auth.RequireAuthMeaning | 0x02-Session_authentication/api/v1/auth/auth.py:49-60 | with both arguments given, false exactly when some entry exempts the normalised path: a `*` entry by literal prefix, any other by equality |
| Auth.AuthorizationHeader | 0x02-Session_authentication/api/v1/auth/auth.py:71-73 | `None` without a request, otherwise the `Authorization` header as sent |
| Auth.SessionCookie | 0x02-Session_authentication/api/v1/auth/auth.py:82-86 | `None` without a request, otherwise the cookie named by `SESSION_NAME` |
| Auth.CurrentUser | 0x02-Session_authentication/api/v1/auth/auth.py:75-80 | the base authenticator never resolves a user |
| Auth.TrailingSlashIrrelevant | 0x02-Session_authentication/api/v1/auth/auth.py:51-52 | `p` and `p/` get the same answer for every excluded list |
| Auth.ExcludedOrderIrrelevant | 0x02-Session_authentication/api/v1/auth/auth.py:53-60 | two lists with the same entries, in any order or repetition, give the same answer |
| Auth.EmptyExcludedRequiresAuth | 0x02-Session_authentication/api/v1/auth/auth.py:53-60 | an empty list exempts no path |
| Auth.ExactEntryExemptsOnlyItself | 0x02-Session_authentication/api/v1/auth/auth.py:57-58 | an entry without `*` exempts a path exactly when it equals the normalised path |
| Auth.WildcardIsLiteralPrefix | 0x02-Session_authentication/api/v1/auth/auth.py:54-56 | `/status*` exempts `/status/`, `/status/123` and `/statuses`, and does not exempt `/stat` |
| BasicExerciseAuth.RequireAuth | 0x01-Basic_authentication/api/v1/auth/auth.py:24-30 | true when the path or the list is `None`; otherwise true exactly when the normalised path is not in the list |
| BasicExerciseAuth.AuthorizationHeader | 0x01-Basic_authentication/api/v1/auth/auth.py:41-46 | `None` without a request, otherwise the header as sent, an empty value included |
| BasicExerciseAuth.CurrentUser | 0x01-Basic_authentication/api/v1/auth/auth.py:48-50 | never resolves a user |
| BasicExerciseAuth.WildcardFreeListsAgree | 0x01-Basic_authentication/api/v1/auth/auth.py:24-30 | with no `*` entry, the Session exercise's `require_auth` answers exactly as this one does for every path and list |
| BasicExerciseAuth.HeaderReadingAgrees | 0x01-Basic_authentication/api/v1/auth/auth.py:41-46 | both exercises read the `Authorization` header identically |
| SessionAuthentication.SessionAuth.CreateSession | 0x02-Session_authentication/api/v1/auth/session_auth.py:15-21 | a `None` or non-string user id gives `None` and leaves the table unchanged; otherwise the table gains exactly the entry `uuid -> user_id`, the id returned is `uuid`, and looking it up gives the user id back |
| SessionAuthentication.SessionAuth.UserIdForSessionId | 0x02-Session_authentication/api/v1/auth/session_auth.py:23-27 | a user id exactly when the session id is a string present in the table, and then the one stored under it |
| SessionAuthentication.SessionAuth.CurrentUser | 0x02-Session_authentication/api/v1/auth/session_auth.py:29-35 | a user is found exactly when the session cookie is a key of the table and some stored user has the user id kept under it; that user has the id |
| SessionAuthentication.SessionAuth.DestroySession | 0x02-Session_authentication/api/v1/auth/session_auth.py:37-48 | true exactly when the cookie is non-empty and resolves to a non-empty user id; then exactly that entry is removed and no longer resolves; otherwise the table is unchanged |
| SessionAuthentication.SessionsAreShared | 0x02-Session_authentication/api/v1/auth/session_auth.py:13 | a session created through one instance is resolved through another, because the dictionary belongs to the class |
| SessionExpiry.ParseDuration | 0x02-Session_authentication/api/v1/auth/session_exp_auth.py:12-15 | `int(SESSION_DURATION)`, and 0 when the setting is unset or not an integer |
| SessionExpiry.ParseInt | 0x02-Session_authentication/api/v1/auth/session_exp_auth.py:13 | `int()` of a string: every decimal numeral, signed or not, reads back as its number (`SessionExpiry.ReadsDecimal`, `SessionExpiry.ReadsNegatedDecimal`); the empty text, `ten` and `1__0` give none (`SessionExpiry.UnreadableDurationIsZero`) |
| SessionExpiry.ReadsDecimal | 0x02-Session_authentication/api/v1/auth/session_exp_auth.py:13 | the decimal digits of a natural number read back as that number |
| SessionExpiry.ReadsNegatedDecimal | 0x02-Session_authentication/api/v1/auth/session_exp_auth.py:13 | a minus sign and the decimal digits of a natural number read back as its negation |
| SessionExpiry.DurationRoundTrip | 0x02-Session_authentication/api/v1/auth/session_exp_auth.py:13 | every integer written in decimal, negative ones included, is read back as itself |
| SessionExpiry.UnreadableDurationIsZero | 0x02-Session_authentication/api/v1/auth/session_exp_auth.py:14-15 | an unset, empty, non-numeric or doubly-underscored setting gives 0 |
| SessionExpiry.ResolveRecord | 0x02-Session_authentication/api/v1/auth/session_exp_auth.py:34-43 | the stored user id is returned exactly when the duration is not positive, or the record has a creation time and is not strictly past `created_at + duration` |
| SessionExpiry.ValidThroughDeadline | 0x02-Session_authentication/api/v1/auth/session_exp_auth.py:40-42 | a session still resolves at its deadline and no longer one microsecond after it |
| SessionExpiry.FiveSecondExample | 0x02-Session_authentication/api/v1/auth/session_exp_auth.py:40-42 | with a duration of 5, a session resolves 4 seconds after creation and not 6 seconds after |
| SessionExpiry.ExpiryIsPermanent | 0x02-Session_authentication/api/v1/auth/session_exp_auth.py:40-42 | a record that has lapsed stays lapsed at every later time |
| SessionExpiry.SessionExpAuth.constructor | 0x02-Session_authentication/api/v1/auth/session_exp_auth.py:10-15 | the duration is the parsed setting, over the shared table |
| SessionExpiry.SessionExpAuth.CreateSession | 0x02-Session_authentication/api/v1/auth/session_exp_auth.py:17-26 | `None` and no change for an invalid user id; otherwise the entry under `uuid` becomes `{user_id, created_at = now}` and resolves to the user id at `now` |
| SessionExpiry.SessionExpAuth.UserIdForSessionId | 0x02-Session_authentication/api/v1/auth/session_exp_auth.py:28-43 | `None` for a non-string or unknown id; otherwise the stored record resolved by the expiry rule |
| SessionExpiry.SessionExpAuth.CurrentUser | 0x02-Session_authentication/api/v1/auth/session_auth.py:29-35 | the inherited `current_user` over the expiring lookup: a user is found exactly when the cookie names a live session and some stored user has its user id |
| SessionExpiry.SessionExpAuth.DestroySession | 0x02-Session_authentication/api/v1/auth/session_auth.py:37-48 | the inherited `destroy_session` over the expiring lookup: an expired session is not destroyed and stays in the table |
| SessionDb.FirstSessionIndex | 0x02-Session_authentication/api/v1/auth/session_db_auth.py:37-38 | the position of the first record with that session id, and none exactly when no record has it |
| SessionDb.RemoveAt | 0x02-Session_authentication/api/v1/auth/session_db_auth.py:53 | removing one record keeps the others, in order |
| SessionDb.DropSession | 0x02-Session_authentication/api/v1/auth/session_db_auth.py:75 | `search(...)[0].remove()`: exactly one record fewer when a record has that session id, and the table unchanged exactly when none has |
| SessionDb.Resolve | 0x02-Session_authentication/api/v1/auth/session_db_auth.py:27-60 | `None` for a non-string or unknown id; the first matching record's user id when it is live (table unchanged); `None` when it is not; the table changes only when duration is positive and the first record has a creation time and expired, by deleting that record alone; a record without a creation time is kept |
| SessionDb.LapsedSessionIsGone | 0x02-Session_authentication/api/v1/auth/session_db_auth.py:51-54 | with unique session ids, the lookup that finds a session lapsed deletes it, and every later lookup of that id finds nothing |
| SessionDb.NoDurationKeepsTable | 0x02-Session_authentication/api/v1/auth/session_db_auth.py:42-43 | without a positive duration no lookup changes the table |
| SessionDb.SessionDbAuth.constructor | 0x02-Session_authentication/api/v1/auth/session_db_auth.py:14-16 | the durable table holds the records loaded at start-up, beside the parsed duration |
| SessionDb.SessionDbAuth.CreateSession | 0x02-Session_authentication/api/v1/auth/session_db_auth.py:18-25 | the superclass's entry is written, and one `UserSession(user_id, session_id, now)` is appended in every case; for a new id it is found by a later lookup |
| SessionDb.SessionDbAuth.UserIdForSessionId | 0x02-Session_authentication/api/v1/auth/session_db_auth.py:27-60 | the answer and the new table are exactly those of `Resolve` on the old table |
| SessionDb.SessionDbAuth.CurrentUser | 0x02-Session_authentication/api/v1/auth/session_auth.py:29-35 | the inherited `current_user` over the durable lookup, which may delete a lapsed record |
| SessionDb.SessionDbAuth.DestroySession | 0x02-Session_authentication/api/v1/auth/session_db_auth.py:62-78 | false and no change without a non-empty cookie; otherwise true exactly when the lookup yields a non-empty user id, in which case the first record with that id is removed, so the table shrinks by exactly one |
| App.SelectAuthType | 0x02-Session_authentication/api/v1/app.py:15-30 | the authenticator chosen is the one whose `AUTH_TYPE` name is the setting, and none for any other value |
| App.SelectionIsOneToOne | 0x02-Session_authentication/api/v1/app.py:15-30 | each authenticator is selected by its own name and by no other |
| App.MakeAuth | 0x02-Session_authentication/api/v1/app.py:15-30 | the instance built is of the selected type, over the class-level tables, with the parsed duration |
| App.GateDecision | 0x02-Session_authentication/api/v1/app.py:41-57 | exempt paths proceed; a path needing authentication with neither header nor cookie is 401, with a credential but no user 403, and with a user proceeds as that user |
| App.MissingCredentialIsNeverForbidden | 0x02-Session_authentication/api/v1/app.py:50-56 | without any credential the user lookup cannot influence the answer and the answer is never 403 |
| App.ExcludedPathsExamples | 0x02-Session_authentication/api/v1/app.py:43-48 | `/api/v1/status` and `/api/v1/auth_session/login` are exempt without their trailing `/` |
| App.UsersPathIsGuarded | 0x02-Session_authentication/api/v1/app.py:43-48 | `/api/v1/users` is not exempt |
| App.CurrentUser | 0x02-Session_authentication/api/v1/app.py:54 | the configured authenticator's user; only the durable variant changes state, exactly as its lookup does |
| App.ResolvedUser | 0x02-Session_authentication/api/v1/app.py:54 | the user the configured variant's `current_user` finds, read in the current state; `App.CurrentUser` returns it |
| App.Gate | 0x02-Session_authentication/api/v1/app.py:43-56 | the outcome for a request: `App.GateDecision` on the path's need for authentication, the header, the cookie and the resolved user; `App.BeforeRequest` reaches it |
| App.BeforeRequest | 0x02-Session_authentication/api/v1/app.py:33-57 | no authenticator proceeds; otherwise the outcome is the gate decision for the request path against the fixed excluded list, read in the state before the request; 401 and exempt paths change nothing; after 403 or a resolved user only the durable store changes, exactly as its lookup does |
| SessionViews.CheckLogin | 0x02-Session_authentication/api/v1/views/session_auth.py:14-25 | the email is checked, then the password, then whether any user has that email; only the first such user's password is checked, and a login succeeds only for a stored user with that email whose password check passes |
| SessionViews.EmailCheckedFirst | 0x02-Session_authentication/api/v1/views/session_auth.py:16-17 | without an email the answer is "email missing" whatever the password and the users |
| SessionViews.FailureResponse | 0x02-Session_authentication/api/v1/views/session_auth.py:16-25 | missing fields are 400, an unknown email 404, a wrong password 401 |
| SessionViews.CreateSession | 0x02-Session_authentication/api/v1/views/session_auth.py:27 | `auth.create_session` on each session variant returns the new id and makes that variant's state change |
| SessionViews.Login | 0x02-Session_authentication/api/v1/views/session_auth.py:8-32 | a failed check answers its error and changes nothing; an authenticator without `create_session` answers 404 through the `except`; otherwise the user is logged in under the new session id, set as the `SESSION_NAME` cookie |
| SessionViews.Logout | 0x02-Session_authentication/api/v1/views/session_auth.py:35-43 | an authenticator without `destroy_session` fails with 500 and changes nothing; otherwise 200 exactly when the session is destroyed, else 404 |
| SessionViews.WouldDestroy | 0x02-Session_authentication/api/v1/views/session_auth.py:41 | whether the configured variant's `destroy_session` succeeds in the current state; `SessionViews.Logout` answers 200 exactly then |
| UserDb.WithAttr | 0x03-user_authentication_service/db.py:66 | `setattr`: the attribute named reads back as the value given and every other attribute is kept |
| UserDb.FirstMatch | 0x03-user_authentication_service/db.py:52-53 | the first row, in table order, matching every criterion, and none exactly when no row matches |
| UserDb.FirstBadKey | 0x03-user_authentication_service/db.py:49-51 | the first key outside the allow-list, and none exactly when every key is allowed |
| UserDb.UntouchedKeyKept | 0x03-user_authentication_service/db.py:63-66 | an attribute no update names keeps its value |
| UserDb.LastUpdateWins | 0x03-user_authentication_service/db.py:63-66 | an attribute ends with the value of the last update naming it |
| UserDb.AppendedRowIsFound | 0x03-user_authentication_service/db.py:52-53 | a row appended to a table where nothing matched is the first match afterwards |
| UserDb.FirstWithSameId | 0x03-user_authentication_service/db.py:62 | looking a row up again by its id finds the first row with that id, which is the row itself when ids are unique |
| UserDb.NextId | 0x03-user_authentication_service/db.py:38-42 | a new row's id is above every integer id in the table and so equals no existing id |
| UserDb.DB.constructor | 0x03-user_authentication_service/db.py:19-25 | a new database holds no users |
| UserDb.DB.AddUser | 0x03-user_authentication_service/db.py:36-43 | exactly one row with the email and hash given and no session or reset token is appended and returned; unique ids stay unique |
| UserDb.DB.FindUserBy | 0x03-user_authentication_service/db.py:45-56 | a key outside the allow-list raises `InvalidRequestError` before any lookup; otherwise the first matching row, or `NoResultFound`; the table is not changed |
| UserDb.DB.SetAttributes | 0x03-user_authentication_service/db.py:63-66 | the assignment loop stops at the first key outside the allow-list exactly when there is one; the row then holds the updates before it, otherwise all of them, and no other row changes |
| UserDb.DB.UpdateUser | 0x03-user_authentication_service/db.py:58-67 | `NoResultFound` and no change for an unknown id; otherwise the updates apply to that one row, in order; a key outside the allow-list raises `ValueError` with the earlier updates applied; other rows never change; unique ids stay unique when `id` is not updated |
| UserAuthService.LoginVerdict | 0x03-user_authentication_service/auth.py:40-47 | false for an unknown email; true only for a stored user with that email whose stored hash passes the check; with one row per email, a known email gets the check's verdict on its stored hash (`AttributeError` when the stored hash is not a string) |
| UserAuthService.RegisteredUserCanLogIn | 0x03-user_authentication_service/auth.py:31-47 | a user just registered logs in with the same password exactly when the checker accepts the hash of that password |
| UserAuthService.AuthService.constructor | 0x03-user_authentication_service/auth.py:27-29 | the service starts over a new, empty database |
| UserAuthService.AuthService.RegisterUser | 0x03-user_authentication_service/auth.py:31-38 | an existing email raises `ValueError("User <email> already exists")` and changes nothing; a new email appends one row holding `hash(password)`, which `find_user_by(email=...)` then returns; unique emails and ids stay unique |
| UserAuthService.AuthService.ValidLogin | 0x03-user_authentication_service/auth.py:40-47 | the verdict of `LoginVerdict` on the current table, with no change to it |
| UserAuthService.AuthService.CreateSession | 0x03-user_authentication_service/auth.py:49-58 | an unknown email gives `None` and no change; otherwise `session_id` becomes the fresh id on the first row with the user's id, which is the user's own row when ids are unique, and no other row changes |
| FilteredLogger.RunLengthIsMaximal | 0x00-personal_data/filtered_logger.py:34 | the greedy value run: every character in it is in the value class and the next one is not |
| FilteredLogger.RunCoversClass | 0x00-personal_data/filtered_logger.py:34 | every run of class characters from a position lies within the greedy run |
| FilteredLogger.MatchAt | 0x00-personal_data/filtered_logger.py:34 | the pattern at one position: the value ends inside the text with room for the separator; `FilteredLogger.MatchAtIsLongest` proves it is the longest value after `field=` that the separator follows, and none exactly when no value is |
| FilteredLogger.LastSepIsLast | 0x00-personal_data/filtered_logger.py:34 | backtracking stops at the last position in the run that the separator follows, and finds none exactly when no position is followed by it |
| FilteredLogger.MatchAtIsLongest | 0x00-personal_data/filtered_logger.py:34-35 | the match at a position is the longest value of class characters that directly follows `<field>=` and is followed by the separator, and there is none exactly when no such value exists |
| FilteredLogger.MatchOfRun | 0x00-personal_data/filtered_logger.py:34 | after `<field>=`, a run of class characters followed by a one-character separator outside the class is matched whole |
| FilteredLogger.MatchesWholeValue | 0x00-personal_data/filtered_logger.py:34 | in `<pre><field>=<value><c>` with no `=` before the value, the match after `=` covers the whole value |
| FilteredLogger.Scan | 0x00-personal_data/filtered_logger.py:35 | `re.sub` from one position: a non-empty match is replaced by the redaction and the separator and the scan resumes after it, otherwise one character is copied; `FilteredLogger.CopiedUntilMatch` and `FilteredLogger.NoMatchUnchanged` state what it keeps |
| FilteredLogger.RedactField | 0x00-personal_data/filtered_logger.py:34-35 | one pass of the loop: `re.sub` of one field's pattern over the whole message (`FilteredLogger.RedactsValue`, `FilteredLogger.KeepsUnmatchedValue`) |
| FilteredLogger.FoldFields | 0x00-personal_data/filtered_logger.py:33-35 | the loop over `fields`, each pass applied to the previous pass's output; `FilteredLogger.FoldFieldsAppend` splits it over concatenated lists |
| FilteredLogger.FilterDatum | 0x00-personal_data/filtered_logger.py:28-36 | the fields are applied in list order, each to the previous output; no fields return the message unchanged |
| FilteredLogger.FoldFieldsAppend | 0x00-personal_data/filtered_logger.py:33-35 | running the fields of `a + b` equals running those of `a` and then those of `b` on the result |
| FilteredLogger.CopiedUntilMatch | 0x00-personal_data/filtered_logger.py:35 | text before the first match is copied unchanged |
| FilteredLogger.NoMatchUnchanged | 0x00-personal_data/filtered_logger.py:35 | a message in which the pattern matches nowhere is returned unchanged |
| FilteredLogger.RedactsValue | 0x00-personal_data/filtered_logger.py:34-35 | in `<pre><field>=<value><sep>` with a value of class characters the value is replaced by the redaction, and the text before it, the `<field>=` prefix and the separator are kept, even when `pre` ends in letters |
| FilteredLogger.KeepsUnmatchedValue | 0x00-personal_data/filtered_logger.py:34 | a value holding a character outside the class before the separator is left unredacted |
| FilteredLogger.Examples | 0x00-personal_data/filtered_logger.py:34-35 | field `name` turns `username=bob;` into `username=***;`, and `email=a.b;` is kept |

## Left out

- Web framework glue: Flask routing, `jsonify`, `abort`, CORS, the error handlers and `app.run` (0x02-Session_authentication/api/v1/app.py:12-14, 60-82), and the `print` in `before_request`; outcomes are modelled as status codes and `ProceedAs(user)` stands for setting `request.current_user`.
- The Session exercise's `BasicAuth` class is not part of this model; its `current_user` answer is the parameter `basicUser` of `App.CurrentUser`.
- `models/user.py` and `models/user_session.py` are not part of this model: users are a sequence searched by `Users.GetUser` and `Users.SearchByEmail`, `is_valid_password` is a parameter, and the `UserSession` file store is the `records` sequence. Failures of `search`, `save`, `remove` and `load_from_file` are not modelled, so the `except Exception` branches of session_db_auth.py:59-60 and 77-78 never apply.
- Clocks: `datetime.now()` and `datetime.utcnow()` are both the parameter `now` (microseconds); the source's mixing of local time (creation in `SessionExpAuth`) and UTC (expiry check in `SessionDBAuth`) is not modelled.
- SessionExpiry.ResolveRecord: durations beyond `timedelta`'s range raise `OverflowError` in the source; the model computes with unbounded integers.
- SessionExpiry.ParseDuration: Unicode whitespace and non-ASCII digits, which Python's `int()` also accepts, are not modelled; ASCII whitespace, signs and single underscores between digits are.
- `uuid4()` and `_generate_uuid()` are the parameter `uuid`; a fresh id is only assumed where a contract says so.
- The plain and the expiring session variants share one class-level dictionary in the source; the application builds only one authenticator, so the model gives each kind of entry its own table (`plainTable`, `stampedTable`) and does not model reading a plain entry through the expiring lookup.
- SessionViews.Login: for the durable variant only the appended `UserSession` record is stated, not the superclass's dictionary entry (`SessionViews.CreateSession` states both); the response body (`to_json`) and an exception from `User.search` are not modelled.
- SessionViews.Logout: for the durable variant the new state is stated as the size of the record table only, not the full record sequence (`SessionDb.SessionDbAuth.DestroySession` states it).
- SQLAlchemy: the engine, the memoised session, `commit()` and the column types and constraints checked at commit time (0x03-user_authentication_service/db.py:22-34, 42, 67) are not modelled; `query.first()` is taken to return rows in insertion order, and rows are values, so the ORM object `find_user_by` returns is identified by its position in the table.
- bcrypt: `_hash_password` (with its random salt) is the parameter `hash`, `checkpw` the parameter of the same name; UTF-8 encoding is not modelled. 0x00-personal_data/encrypt_password.py is not part of this model.
- `filter_datum` interpolates `field` and `separator` into the regular expression unescaped; the model reads them as literal text, so regular-expression metacharacters in them, and backslash escapes or group references in the replacement `redaction + separator`, are not modelled. `\w` is restricted to ASCII, and the empty-match rules are those of Python 3.7 and later.
- `RedactingFormatter` and its `format` (0x00-personal_data/filtered_logger.py:9-25), which passes the log-record factory rather than a message and returns nothing, and the client script 0x03-user_authentication_service/main.py.
- Concurrency: requests are modelled one at a time.
