/** The browser's `localStorage` as the store sees it: one map from keys to
    decoded values. Two keys belong to `UserAuth` (the user table and the
    session); every other key is application data this core never reads. */
module Storage {
  import opened Text

  datatype Option<T> = None | Some(value: T)

  /** `new Date().toISOString()`, supplied by the caller. */
  type Timestamp = JsString

  /** `'admin'` or `'user'`. */
  datatype Role = Admin | User

  /** One entry of the user table: `{password, createdAt, role}`. */
  datatype UserRecord = UserRecord(password: JsString, createdAt: Timestamp, role: Role)

  /** The session blob: `{username, loginTime}`. */
  datatype Session = Session(username: JsString, loginTime: Timestamp)

  /** The user table, keyed by the exact (case-sensitive) username. */
  type Users = map<JsString, UserRecord>

  /** What a storage key holds once its JSON text is decoded. */
  datatype Value = UsersV(users: Users) | SessionV(session: Session) | Opaque(text: JsString)

  type Store = map<JsString, Value>

  const UsersKey: JsString := Js("starchart_users")
  const SessionKey: JsString := Js("starchart_session")

  /** The one username that `isAdmin` and `deleteAccount` single out. */
  const Cyrus: JsString := Js("Cyrus")

  lemma ReservedKeysDistinct()
    ensures UsersKey != SessionKey
  {
  }

  /** The two reserved keys, when present, hold the blob kind their readers
      expect. */
  predicate WellFormed(s: Store)
  {
    && (UsersKey in s ==> s[UsersKey].UsersV?)
    && (SessionKey in s ==> s[SessionKey].SessionV?)
  }

  /** `getUsers` (user.js:4-6): the stored table, or `{}` when the key is
      absent. */
  function GetUsers(s: Store): (r: Users)
    ensures UsersKey !in s ==> r == map[]
    ensures WellFormed(s) && UsersKey in s ==> r == s[UsersKey].users
  {
    if UsersKey in s && s[UsersKey].UsersV? then s[UsersKey].users else map[]
  }

  /** `saveUsers` (user.js:9-11). */
  function SaveUsers(s: Store, users: Users): (r: Store)
    ensures GetUsers(r) == users
    ensures r.Keys == s.Keys + {UsersKey}
    ensures forall k :: k in s && k != UsersKey ==> r[k] == s[k]
  {
    s[UsersKey := UsersV(users)]
  }

  /** `getCurrentSession` (user.js:14-16): the stored session, or `null`. */
  function GetCurrentSession(s: Store): (r: Option<Session>)
    ensures SessionKey !in s ==> r == None
    ensures WellFormed(s) && SessionKey in s ==> r == Some(s[SessionKey].session)
  {
    if SessionKey in s && s[SessionKey].SessionV? then Some(s[SessionKey].session) else None
  }

  /** `saveSession` (user.js:19-25): the session is overwritten, whatever it
      was, and the user table is untouched. */
  function SaveSession(s: Store, username: JsString, now: Timestamp): (r: Store)
    ensures GetCurrentSession(r) == Some(Session(username, now))
    ensures GetUsers(r) == GetUsers(s)
    ensures r.Keys == s.Keys + {SessionKey}
    ensures forall k :: k in s && k != SessionKey ==> r[k] == s[k]
  {
    ReservedKeysDistinct();
    s[SessionKey := SessionV(Session(username, now))]
  }

  /** `clearSession` (user.js:28-30). */
  function ClearSession(s: Store): (r: Store)
    ensures GetCurrentSession(r) == None
    ensures r.Keys == s.Keys - {SessionKey}
    ensures forall k :: k in r ==> r[k] == s[k]
  {
    s - {SessionKey}
  }

  /** `isLoggedIn` (user.js:105-108): a session is stored. */
  function IsLoggedIn(s: Store): (r: bool)
    ensures WellFormed(s) ==> (r <==> SessionKey in s)
  {
    GetCurrentSession(s).Some?
  }

  /** `getCurrentUser` (user.js:111-114). A session whose username is the
      empty string still yields that (empty) name. */
  function GetCurrentUser(s: Store): (r: Option<JsString>)
    ensures r.Some? <==> IsLoggedIn(s)
    ensures WellFormed(s) && SessionKey in s ==> r == Some(s[SessionKey].session.username)
  {
    match GetCurrentSession(s)
    case None => None
    case Some(session) => Some(session.username)
  }

  /** `isAdmin` (user.js:117-120): a literal comparison of the session's
      username, not a lookup of the `role` field. It holds exactly when
      someone is logged in under the name "Cyrus", whether or not that user
      is in the table, and whatever role the table gives it. */
  function IsAdmin(s: Store): (r: bool)
    ensures r <==> IsLoggedIn(s) && GetCurrentSession(s).value.username == Cyrus
  {
    GetCurrentUser(s) == Some(Cyrus)
  }

  /** The session queries read the session key only: stores that agree on it
      agree on all three answers, whatever their user tables say. */
  lemma SessionQueriesIgnoreTable(s: Store, t: Store)
    requires SessionKey in s <==> SessionKey in t
    requires SessionKey in s ==> s[SessionKey] == t[SessionKey]
    ensures IsLoggedIn(s) == IsLoggedIn(t)
    ensures GetCurrentUser(s) == GetCurrentUser(t)
    ensures IsAdmin(s) == IsAdmin(t)
  {
  }
}
