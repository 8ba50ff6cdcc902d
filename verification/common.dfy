/** Shared value types: optional values, Python's dynamically typed arguments and results that may raise. */
module Common {

  datatype Option<T> = None | Some(value: T)

  datatype Result<T, E> = Ok(value: T) | Err(error: E)

  /** A Python argument or attribute value: `None`, a `str`, or any other object,
      of which only its truthiness matters to the code modelled here. */
  datatype PyValue = PyNone | PyStr(s: string) | PyOther(truthy: bool)

  /** Python's `bool(v)`: `None` and `""` are falsy. */
  predicate Truthy(v: PyValue)
  {
    match v
    case PyNone => false
    case PyStr(s) => s != ""
    case PyOther(t) => t
  }

  /** An optional string handed on as a Python value (`None` stays `None`). */
  function FromOption(o: Option<string>): (v: PyValue)
    ensures v.PyNone? <==> o.None?
    ensures o.Some? ==> v == PyStr(o.value)
  {
    match o
    case None => PyNone
    case Some(s) => PyStr(s)
  }

  /** `bool(x)` for an optional string: present and not empty. */
  predicate Present(o: Option<string>)
  {
    o.Some? && o.value != ""
  }

  predicate EndsWith(s: string, c: char)
  {
    |s| > 0 && s[|s| - 1] == c
  }

  /** The path normalisation shared by both `require_auth` versions: a path not ending in `/` gets one. */
  function WithTrailingSlash(path: string): (r: string)
    ensures EndsWith(r, '/')
    ensures EndsWith(path, '/') ==> r == path
    ensures !EndsWith(path, '/') ==> r == path + "/"
  {
    if EndsWith(path, '/') then path else path + "/"
  }
}

/** The request abstraction the authenticators read: a path, the header list and the cookies. */
module Http {
  import opened Common

  datatype Request = Request(path: string, headers: seq<(string, string)>, cookies: map<string, string>)

  function LowerChar(c: char): char
  {
    if 'A' <= c <= 'Z' then (c as int + 32) as char else c
  }

  function Lower(s: string): (r: string)
    ensures |r| == |s|
  {
    seq(|s|, i requires 0 <= i < |s| => LowerChar(s[i]))
  }

  /** Position of the first header whose name equals `name` ignoring ASCII case. */
  function HeaderIndex(headers: seq<(string, string)>, name: string): (r: Option<nat>)
    ensures r.None? <==> forall i :: 0 <= i < |headers| ==> Lower(headers[i].0) != Lower(name)
    ensures r.Some? ==> r.value < |headers| && Lower(headers[r.value].0) == Lower(name)
                        && forall j :: 0 <= j < r.value ==> Lower(headers[j].0) != Lower(name)
  {
    if headers == [] then None
    else if Lower(headers[0].0) == Lower(name) then Some(0)
    else
      match HeaderIndex(headers[1..], name)
      case None => None
      case Some(k) => Some(k + 1)
  }

  /** Header lookup as the web framework does it: the value of the first header whose name
      equals `name` ignoring ASCII case, `None` when there is none. */
  function HeaderGet(headers: seq<(string, string)>, name: string): (r: Option<string>)
    ensures r.None? <==> forall i :: 0 <= i < |headers| ==> Lower(headers[i].0) != Lower(name)
    ensures r.Some? ==> exists i :: 0 <= i < |headers| && Lower(headers[i].0) == Lower(name)
                                    && r.value == headers[i].1
                                    && forall j :: 0 <= j < i ==> Lower(headers[j].0) != Lower(name)
  {
    match HeaderIndex(headers, name)
    case None => None
    case Some(i) => Some(headers[i].1)
  }

  /** A cookie value by optional name; a missing name (an unset configuration variable) finds nothing. */
  function CookieGet(cookies: map<string, string>, name: Option<string>): (r: Option<string>)
    ensures r.Some? <==> name.Some? && name.value in cookies
    ensures r.Some? ==> r.value == cookies[name.value]
  {
    if name.Some? && name.value in cookies then Some(cookies[name.value]) else None
  }
}

/** The user model of the session exercise (its own source is not part of this model):
    `User.get` by id and `User.search` by email over the stored users, in storage order. */
module Users {
  import opened Common

  datatype User = User(id: string, email: string, password: string)

  /** `User.get(id)`: the stored user with that id; `None` for a non-string id. */
  function GetUser(users: seq<User>, id: PyValue): (r: Option<User>)
    ensures r.Some? ==> id.PyStr? && r.value in users && r.value.id == id.s
    ensures r.None? ==> !id.PyStr? || forall u :: u in users ==> u.id != id.s
  {
    if !id.PyStr? || users == [] then None
    else if users[0].id == id.s then Some(users[0])
    else GetUser(users[1..], id)
  }

  /** `User.search({'email': email})`: every stored user with that email, in storage order. */
  function SearchByEmail(users: seq<User>, email: string): (r: seq<User>)
    ensures forall u :: u in r <==> u in users && u.email == email
    ensures |r| <= |users|
  {
    if users == [] then []
    else if users[0].email == email then [users[0]] + SearchByEmail(users[1..], email)
    else SearchByEmail(users[1..], email)
  }
}
