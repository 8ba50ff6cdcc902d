/** The user table of the authentication service (0x03-user_authentication_service/db.py):
    rows of five attributes, a key allow-list, lookup by attribute values and in-place update. */
module UserDb {
  import opened Common

  /** The exceptions the table operations raise. */
  datatype PyError = InvalidRequestError | NoResultFound | ValueError(message: string) | AttributeError

  /** A column value: an integer, a string, or SQL `NULL`. */
  datatype FieldValue = IntValue(i: int) | StrValue(s: string) | NullValue

  /** A `users` row. */
  datatype UserRow = UserRow(id: FieldValue, email: FieldValue, hashedPassword: FieldValue,
                             sessionId: FieldValue, resetToken: FieldValue)

  /** The attribute names the table accepts as lookup or update keys. */
  const Keys: seq<string> := ["id", "email", "hashed_password", "session_id", "reset_token"]

  function Attr(row: UserRow, key: string): FieldValue
    requires key in Keys
  {
    if key == "id" then row.id
    else if key == "email" then row.email
    else if key == "hashed_password" then row.hashedPassword
    else if key == "session_id" then row.sessionId
    else row.resetToken
  }

  /** `setattr(row, key, value)`: the attribute named reads back as `value`, every other one is kept. */
  function WithAttr(row: UserRow, key: string, value: FieldValue): (r: UserRow)
    requires key in Keys
    ensures Attr(r, key) == value
    ensures forall k :: k in Keys && k != key ==> Attr(r, k) == Attr(row, k)
  {
    if key == "id" then row.(id := value)
    else if key == "email" then row.(email := value)
    else if key == "hashed_password" then row.(hashedPassword := value)
    else if key == "session_id" then row.(sessionId := value)
    else row.(resetToken := value)
  }

  /** `filter_by(**criteria)`: every criterion names an allowed attribute that has the value given. */
  predicate Matches(row: UserRow, criteria: seq<(string, FieldValue)>)
  {
    forall m :: 0 <= m < |criteria| ==> criteria[m].0 in Keys && Attr(row, criteria[m].0) == criteria[m].1
  }

  /** `query.first()`: the position of the first row, in table order, that matches. */
  function FirstMatch(users: seq<UserRow>, criteria: seq<(string, FieldValue)>): (r: Option<nat>)
    ensures r.Some? ==> r.value < |users| && Matches(users[r.value], criteria)
                        && forall j :: 0 <= j < r.value ==> !Matches(users[j], criteria)
    ensures r.None? <==> forall j :: 0 <= j < |users| ==> !Matches(users[j], criteria)
  {
    if users == [] then None
    else if Matches(users[0], criteria) then Some(0)
    else
      var rest := FirstMatch(users[1..], criteria);
      if rest.None? then None
      else
        assert forall j :: 1 <= j < |users| ==> users[j] == users[1..][j - 1];
        Some(rest.value + 1)
  }

  /** The position of the first key outside the allow-list, if there is one. */
  function FirstBadKey(pairs: seq<(string, FieldValue)>): (r: Option<nat>)
    ensures r.Some? ==> r.value < |pairs| && pairs[r.value].0 !in Keys
                        && forall m :: 0 <= m < r.value ==> pairs[m].0 in Keys
    ensures r.None? <==> forall m :: 0 <= m < |pairs| ==> pairs[m].0 in Keys
  {
    if pairs == [] then None
    else if pairs[0].0 !in Keys then Some(0)
    else
      var rest := FirstBadKey(pairs[1..]);
      if rest.None? then None
      else
        assert forall m :: 1 <= m < |pairs| ==> pairs[m] == pairs[1..][m - 1];
        Some(rest.value + 1)
  }

  predicate AllowedKeys(pairs: seq<(string, FieldValue)>)
  {
    forall m :: 0 <= m < |pairs| ==> pairs[m].0 in Keys
  }

  /** The `setattr` calls of `update_user`, one per pair, in order. */
  function ApplyUpdates(row: UserRow, updates: seq<(string, FieldValue)>): UserRow
    requires AllowedKeys(updates)
  {
    if updates == [] then row
    else
      var last := updates[|updates| - 1];
      WithAttr(ApplyUpdates(row, updates[..|updates| - 1]), last.0, last.1)
  }

  /** An attribute no update names keeps its value. */
  lemma {:induction false} UntouchedKeyKept(row: UserRow, updates: seq<(string, FieldValue)>, key: string)
    requires AllowedKeys(updates) && key in Keys
    requires forall m :: 0 <= m < |updates| ==> updates[m].0 != key
    ensures Attr(ApplyUpdates(row, updates), key) == Attr(row, key)
  {
    if updates != [] {
      UntouchedKeyKept(row, updates[..|updates| - 1], key);
    }
  }

  /** An attribute takes the value of the last update that names it. */
  lemma {:induction false} LastUpdateWins(row: UserRow, updates: seq<(string, FieldValue)>, m: nat)
    requires AllowedKeys(updates) && m < |updates|
    requires forall n :: m < n < |updates| ==> updates[n].0 != updates[m].0
    ensures Attr(ApplyUpdates(row, updates), updates[m].0) == updates[m].1
  {
    if m < |updates| - 1 {
      LastUpdateWins(row, updates[..|updates| - 1], m);
    }
  }

  /** A row appended to a table where nothing matched is the first match afterwards. */
  lemma AppendedRowIsFound(users: seq<UserRow>, row: UserRow, criteria: seq<(string, FieldValue)>)
    requires FirstMatch(users, criteria).None? && Matches(row, criteria)
    ensures FirstMatch(users + [row], criteria) == Some(|users|)
  {
    var all := users + [row];
    assert all[|users|] == row;
  }

  /** The position `find_user_by(id=...)` reaches from the row at `i`: the first row with the same id. */
  function FirstWithSameId(users: seq<UserRow>, i: nat): (j: nat)
    requires i < |users|
    ensures j <= i && users[j].id == users[i].id
    ensures FirstMatch(users, [("id", users[i].id)]) == Some(j)
    ensures UniqueIds(users) ==> j == i
  {
    var criteria := [("id", users[i].id)];
    assert Matches(users[i], criteria);
    var j := FirstMatch(users, criteria).value;
    assert criteria[0].0 == "id" && Attr(users[j], criteria[0].0) == criteria[0].1;
    j
  }

  /** The largest integer id in the table, if any. */
  function MaxId(users: seq<UserRow>): (r: Option<int>)
    ensures r.Some? ==> IntValue(r.value) in Ids(users)
    ensures forall u :: u in users && u.id.IntValue? ==> r.Some? && u.id.i <= r.value
  {
    if users == [] then None
    else
      var rest := MaxId(users[1..]);
      assert forall u :: u in users[1..] ==> u in users;
      if !users[0].id.IntValue? then rest
      else if rest.Some? && rest.value > users[0].id.i then rest
      else Some(users[0].id.i)
  }

  function Ids(users: seq<UserRow>): set<FieldValue>
  {
    set u | u in users :: u.id
  }

  /** The id the database gives a new row: one more than the largest, or 1 in an empty table.
      It is never an id already in use. */
  function NextId(users: seq<UserRow>): (id: int)
    ensures forall u :: u in users ==> u.id != IntValue(id)
    ensures MaxId(users).Some? ==> id > MaxId(users).value
  {
    match MaxId(users)
    case None => 1
    case Some(m) => m + 1
  }

  /** No two rows share an id (the primary-key constraint). */
  predicate UniqueIds(users: seq<UserRow>)
  {
    forall i, j :: 0 <= i < j < |users| ==> users[i].id != users[j].id
  }

  /** The row `add_user` creates: a fresh id, the email and hash given, no session or reset token. */
  function NewUser(users: seq<UserRow>, email: string, hashedPassword: string): UserRow
  {
    UserRow(IntValue(NextId(users)), StrValue(email), StrValue(hashedPassword), NullValue, NullValue)
  }

  class DB {
    var users: seq<UserRow>

    /** The tables are dropped and created again: a new database holds no users. */
    constructor ()
      ensures users == []
    {
      users := [];
    }

    /** `add_user`: appends exactly one row and returns it; the primary key stays unique. */
    method AddUser(email: string, hashedPassword: string) returns (user: UserRow)
      modifies this
      ensures user == NewUser(old(users), email, hashedPassword)
      ensures users == old(users) + [user]
      ensures UniqueIds(old(users)) ==> UniqueIds(users)
    {
      user := NewUser(users, email, hashedPassword);
      assert forall i :: 0 <= i < |users| ==> users[i] in users;
      users := users + [user];
    }

    /** `find_user_by`: every key is checked against the allow-list before any lookup; then the
        first matching row, or `NoResultFound`. The row is returned as its position in the table,
        the identity the ORM object returned stands for. */
    method FindUserBy(criteria: seq<(string, FieldValue)>) returns (r: Result<nat, PyError>)
      ensures FirstBadKey(criteria).Some? ==> r == Err(InvalidRequestError)
      ensures FirstBadKey(criteria).None? && FirstMatch(users, criteria).None? ==> r == Err(NoResultFound)
      ensures FirstBadKey(criteria).None? && FirstMatch(users, criteria).Some? ==> r == Ok(FirstMatch(users, criteria).value)
      ensures r.Ok? ==> r.value < |users| && Matches(users[r.value], criteria)
    {
      var k := 0;
      while k < |criteria|
        invariant 0 <= k <= |criteria|
        invariant forall m :: 0 <= m < k ==> criteria[m].0 in Keys
      {
        if criteria[k].0 !in Keys {
          return Err(InvalidRequestError);
        }
        k := k + 1;
      }
      var found := FirstMatch(users, criteria);
      if found.None? {
        return Err(NoResultFound);
      }
      r := Ok(found.value);
    }

    /** `update_user`: finds the first row with that id (`NoResultFound` otherwise, with nothing
        changed) and assigns the pairs to it in order. A key outside the allow-list raises
        `ValueError` when it is reached; the assignments made before it stay in the row. */
    method UpdateUser(userId: FieldValue, updates: seq<(string, FieldValue)>) returns (r: Result<(), PyError>)
      modifies this
      ensures var i := FirstMatch(old(users), [("id", userId)]);
              i.None? ==> r == Err(NoResultFound) && users == old(users)
      ensures var i := FirstMatch(old(users), [("id", userId)]);
              i.Some? && FirstBadKey(updates).None? ==>
                r == Ok(()) && users == old(users)[i.value := ApplyUpdates(old(users)[i.value], updates)]
      ensures var i := FirstMatch(old(users), [("id", userId)]);
              var bad := FirstBadKey(updates);
              i.Some? && bad.Some? ==>
                r == Err(ValueError("")) && users == old(users)[i.value := ApplyUpdates(old(users)[i.value], updates[..bad.value])]
      ensures UniqueIds(old(users)) && (forall m :: 0 <= m < |updates| ==> updates[m].0 != "id") ==> UniqueIds(users)
    {
      var byId := [("id", userId)];
      assert FirstBadKey(byId).None? by {
        assert byId[0].0 == "id";
      }
      var found := FindUserBy(byId);
      if found.Err? {
        return Err(NoResultFound);
      }
      var bad := SetAttributes(found.value, updates);
      assert updates[..|updates|] == updates;
      r := if bad then Err(ValueError("")) else Ok(());
    }

    /** The `setattr` loop of `update_user` on the row at `i`: stops with `ValueError` at the
        first key outside the allow-list, keeping the assignments made before it. */
    method SetAttributes(i: nat, updates: seq<(string, FieldValue)>) returns (bad: bool)
      requires i < |users|
      modifies this
      ensures bad <==> FirstBadKey(updates).Some?
      ensures var n := if bad then FirstBadKey(updates).value else |updates|;
              && AllowedKeys(updates[..n])
              && users == old(users)[i := ApplyUpdates(old(users)[i], updates[..n])]
      ensures UniqueIds(old(users)) && (forall m :: 0 <= m < |updates| ==> updates[m].0 != "id") ==> UniqueIds(users)
    {
      var k := 0;
      while k < |updates|
        invariant 0 <= k <= |updates|
        invariant forall m :: 0 <= m < k ==> updates[m].0 in Keys
        invariant users == old(users)[i := ApplyUpdates(old(users)[i], updates[..k])]
      {
        if updates[k].0 !in Keys {
          FirstBadKeyAt(updates, k);
          KeptIds(old(users), i, updates[..k]);
          return true;
        }
        ApplyOneMore(old(users)[i], updates, k);
        users := users[i := WithAttr(users[i], updates[k].0, updates[k].1)];
        k := k + 1;
      }
      assert updates[..k] == updates;
      KeptIds(old(users), i, updates);
      bad := false;
    }
  }

  /** The first key outside the allow-list is the one at `k` when all before it are allowed. */
  lemma FirstBadKeyAt(pairs: seq<(string, FieldValue)>, k: nat)
    requires k < |pairs| && pairs[k].0 !in Keys
    requires forall m :: 0 <= m < k ==> pairs[m].0 in Keys
    ensures FirstBadKey(pairs) == Some(k)
  {
  }

  /** One more `setattr` extends the updates applied so far by one. */
  lemma ApplyOneMore(row: UserRow, updates: seq<(string, FieldValue)>, k: nat)
    requires k < |updates|
    requires forall m :: 0 <= m <= k ==> updates[m].0 in Keys
    ensures AllowedKeys(updates[..k]) && AllowedKeys(updates[..k + 1])
    ensures ApplyUpdates(row, updates[..k + 1]) == WithAttr(ApplyUpdates(row, updates[..k]), updates[k].0, updates[k].1)
  {
    assert updates[..k + 1][..k] == updates[..k];
  }

  /** Updates that leave `id` alone keep the ids unique. */
  lemma KeptIds(users: seq<UserRow>, i: nat, updates: seq<(string, FieldValue)>)
    requires i < |users| && AllowedKeys(updates)
    ensures UniqueIds(users) && (forall m :: 0 <= m < |updates| ==> updates[m].0 != "id") ==>
              UniqueIds(users[i := ApplyUpdates(users[i], updates)])
  {
    if forall m :: 0 <= m < |updates| ==> updates[m].0 != "id" {
      UntouchedKeyKept(users[i], updates, "id");
    }
  }
}
