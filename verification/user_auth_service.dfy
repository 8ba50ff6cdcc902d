/** The authentication service of 0x03-user_authentication_service/auth.py: registration,
    password checks and session creation over the user table. The password hash (bcrypt with a
    fresh salt), its check and the `uuid4` generator are parameters. */
module UserAuthService {
  import opened Common
  import opened UserDb

  function EmailCriteria(email: string): seq<(string, FieldValue)>
  {
    [("email", StrValue(email))]
  }

  /** No two rows share an email. */
  predicate UniqueEmails(users: seq<UserRow>)
  {
    forall i, j :: 0 <= i < j < |users| ==> users[i].email != users[j].email
  }

  /** A row matches the email criteria exactly when it holds that email. */
  lemma EmailMatch(row: UserRow, email: string)
    ensures Matches(row, EmailCriteria(email)) <==> row.email == StrValue(email)
  {
    var c := EmailCriteria(email);
    assert c[0].0 == "email";
  }

  /** With one row per email, the row holding an email is the only row holding it. */
  lemma OnlyHolder(users: seq<UserRow>, email: string, i: nat)
    requires i < |users| && users[i].email == StrValue(email)
    ensures UniqueEmails(users) ==> forall u :: u in users && u.email == StrValue(email) ==> u == users[i]
  {
    if UniqueEmails(users) {
      forall u | u in users && u.email == StrValue(email)
        ensures u == users[i]
      {
        var j :| 0 <= j < |users| && users[j] == u;
        assert !(j < i) && !(i < j);
      }
    }
  }

  /** What `valid_login` answers: `False` for an unknown email, otherwise the verdict of the
      password check against the stored hash; a stored hash that is not a string has no `encode`. */
  function LoginVerdict(users: seq<UserRow>, email: string, password: string, checkpw: (string, string) -> bool)
    : (r: Result<bool, PyError>)
    ensures (forall u :: u in users ==> u.email != StrValue(email)) ==> r == Ok(false)
    ensures r == Ok(true) ==> exists u :: u in users && u.email == StrValue(email) && u.hashedPassword.StrValue?
                                          && checkpw(password, u.hashedPassword.s)
    // with one row per email, a known email gets the password check's verdict on its stored hash
    ensures UniqueEmails(users) ==>
              forall u :: u in users && u.email == StrValue(email) ==>
                r == if u.hashedPassword.StrValue? then Ok(checkpw(password, u.hashedPassword.s)) else Err(AttributeError)
  {
    var found := FirstMatch(users, EmailCriteria(email));
    if found.None? then
      Ok(false)
    else
      var user := users[found.value];
      EmailMatch(user, email);
      OnlyHolder(users, email, found.value);
      if !user.hashedPassword.StrValue? then Err(AttributeError)
      else Ok(checkpw(password, user.hashedPassword.s))
  }

  /** A user just registered logs in with the same password whenever the checker accepts the
      hash of that password. */
  lemma RegisteredUserCanLogIn(users: seq<UserRow>, email: string, password: string,
                               hash: string -> string, checkpw: (string, string) -> bool)
    requires FirstMatch(users, EmailCriteria(email)).None?
    ensures LoginVerdict(users + [NewUser(users, email, hash(password))], email, password, checkpw)
            == Ok(checkpw(password, hash(password)))
  {
    var row := NewUser(users, email, hash(password));
    EmailMatch(row, email);
    AppendedRowIsFound(users, row, EmailCriteria(email));
  }

  class AuthService {
    const db: DB

    constructor ()
      ensures fresh(db) && db.users == []
    {
      db := new DB();
    }

    /** `register_user`: an email already in the table raises `ValueError`, naming it, and changes
        nothing; a new email gets one row holding the hash of the password, never the password. */
    method RegisterUser(email: string, password: string, hash: string -> string) returns (r: Result<UserRow, PyError>)
      modifies db
      ensures (exists u :: u in old(db.users) && u.email == StrValue(email)) ==>
                r == Err(ValueError("User " + email + " already exists")) && db.users == old(db.users)
      ensures (forall u :: u in old(db.users) ==> u.email != StrValue(email)) ==>
                && r == Ok(NewUser(old(db.users), email, hash(password)))
                && db.users == old(db.users) + [r.value]
      ensures r.Ok? ==> FirstMatch(db.users, EmailCriteria(email)) == Some(|db.users| - 1)
      ensures UniqueEmails(old(db.users)) ==> UniqueEmails(db.users)
      ensures UniqueIds(old(db.users)) ==> UniqueIds(db.users)
    {
      var found := db.FindUserBy(EmailCriteria(email));
      assert FirstBadKey(EmailCriteria(email)).None? by {
        assert EmailCriteria(email)[0].0 == "email";
      }
      if found.Ok? {
        EmailMatch(db.users[found.value], email);
        return Err(ValueError("User " + email + " already exists"));
      }
      forall u | u in db.users
        ensures u.email != StrValue(email)
      {
        EmailMatch(u, email);
      }
      var user := db.AddUser(email, hash(password));
      EmailMatch(user, email);
      AppendedRowIsFound(old(db.users), user, EmailCriteria(email));
      r := Ok(user);
    }

    /** `valid_login`: reads the table and changes nothing. */
    method ValidLogin(email: string, password: string, checkpw: (string, string) -> bool) returns (r: Result<bool, PyError>)
      ensures r == LoginVerdict(db.users, email, password, checkpw)
    {
      var found := db.FindUserBy(EmailCriteria(email));
      assert FirstBadKey(EmailCriteria(email)).None? by {
        assert EmailCriteria(email)[0].0 == "email";
      }
      if found.Err? {
        return Ok(false);
      }
      var user := db.users[found.value];
      if !user.hashedPassword.StrValue? {
        return Err(AttributeError);
      }
      r := Ok(checkpw(password, user.hashedPassword.s));
    }

    /** `create_session`: an unknown email answers `None` and changes nothing. Otherwise the
        `session_id` of the first row with that user's id is set to `uuid` (the fresh identifier),
        which is returned; with unique ids that row is the user's own and no other row changes. */
    method CreateSession(email: string, uuid: string) returns (sessionId: Option<string>)
      modifies db
      ensures var i := FirstMatch(old(db.users), EmailCriteria(email));
              i.None? ==> sessionId.None? && db.users == old(db.users)
      ensures var i := FirstMatch(old(db.users), EmailCriteria(email));
              i.Some? ==> var j := FirstWithSameId(old(db.users), i.value);
                          && sessionId == Some(uuid)
                          && db.users == old(db.users)[j := old(db.users)[j].(sessionId := StrValue(uuid))]
      ensures var i := FirstMatch(old(db.users), EmailCriteria(email));
              i.Some? && UniqueIds(old(db.users)) ==>
                && db.users == old(db.users)[i.value := old(db.users)[i.value].(sessionId := StrValue(uuid))]
                && db.users[i.value].email == StrValue(email)
    {
      var found := db.FindUserBy(EmailCriteria(email));
      assert FirstBadKey(EmailCriteria(email)).None? by {
        assert EmailCriteria(email)[0].0 == "email";
      }
      if found.Err? {
        return None;
      }
      var user := db.users[found.value];
      EmailMatch(user, email);
      var j := FirstWithSameId(db.users, found.value);
      var updates := [("session_id", StrValue(uuid))];
      assert FirstBadKey(updates).None? by {
        assert updates[0].0 == "session_id";
      }
      assert ApplyUpdates(db.users[j], updates) == db.users[j].(sessionId := StrValue(uuid)) by {
        assert updates[..0] == [];
      }
      var result := db.UpdateUser(user.id, updates);
      if result.Err? {
        return None;
      }
      sessionId := Some(uuid);
    }
  }
}
