/** What each `UserAuth` operation does to the store, as a function from the
    store before the call to the reply and the store after it. The class in
    user_auth.dfy performs these steps in place and is proved to agree with
    them; the lemmas here relate the operations to one another. */
module Auth {
  import opened Text
  import opened Hash
  import opened Storage

  /** Every outcome an operation can have. `Threw` is the TypeError the
      source raises instead of replying (user.js:138 with no such user). */
  datatype Status =
    | Created | MissingField | ShortUsername | ShortPassword | Duplicate
    | LoggedIn | InvalidCredentials
    | LoggedOut
    | NotLoggedIn | ProtectedAdmin | IncorrectPassword | Deleted
    | Threw

  /** The `success` field of the reply. */
  predicate Success(st: Status)
  {
    st in {Created, LoggedIn, LoggedOut, Deleted}
  }

  /** The `message` field of the reply. */
  function Message(st: Status): JsString
    requires st != Threw
  {
    match st
    case Created => Js("Account created successfully!")
    case MissingField => Js("Username and password are required")
    case ShortUsername => Js("Username must be at least 3 characters")
    case ShortPassword => Js("Password must be at least 4 characters")
    case Duplicate => Js("Username already exists")
    case LoggedIn => Js("Login successful!")
    case InvalidCredentials => Js("Invalid username or password")
    case LoggedOut => Js("Logged out successfully")
    case NotLoggedIn => Js("Not logged in")
    case ProtectedAdmin => Js("Admin account cannot be deleted")
    case IncorrectPassword => Js("Incorrect password")
    case Deleted => Js("Account deleted successfully")
  }

  datatype Outcome = Outcome(status: Status, store: Store)

  /** Storage keys other than `k` are untouched from `s` to `r`. */
  predicate OthersUnchanged(s: Store, r: Store, k: JsString)
  {
    && r.Keys - {k} == s.Keys - {k}
    && (forall j :: j in r && j in s && j != k ==> r[j] == s[j])
  }

  /** The record `register` creates. */
  function NewUser(password: JsString, now: Timestamp): UserRecord
  {
    UserRecord(Digest(password), now, User)
  }

  /** `register` (user.js:44-75). */
  function Register(s: Store, username: JsString, password: JsString, now: Timestamp): (r: Outcome)
    ensures r.status != Created ==> r.store == s
    ensures r.status in {Created, MissingField, ShortUsername, ShortPassword, Duplicate}
    ensures r.status == Created ==>
      && username !in GetUsers(s)
      && GetUsers(r.store) == GetUsers(s)[username := NewUser(password, now)]
      && OthersUnchanged(s, r.store, UsersKey)
  {
    if username == [] || password == [] then Outcome(MissingField, s)
    else if |username| < 3 then Outcome(ShortUsername, s)
    else if |password| < 4 then Outcome(ShortPassword, s)
    else
      var users := GetUsers(s);
      if username in users then Outcome(Duplicate, s)
      else Outcome(Created, SaveUsers(s, users[username := NewUser(password, now)]))
  }

  /** The validation of user.js:46-56 runs in a fixed order and the first
      failing check decides the reply; only valid input reaches the table. */
  lemma RegisterValidation(s: Store, username: JsString, password: JsString, now: Timestamp)
    ensures var st := Register(s, username, password, now).status;
      && (st == MissingField <==> username == [] || password == [])
      && (st == ShortUsername <==> username != [] && password != [] && |username| < 3)
      && (st == ShortPassword <==> username != [] && |username| >= 3 && password != [] && |password| < 4)
      && (st in {Created, Duplicate} <==> |username| >= 3 && |password| >= 4)
      && (st == Duplicate <==> |username| >= 3 && |password| >= 4 && username in GetUsers(s))
  {
  }

  /** `login` (user.js:78-96). */
  function Login(s: Store, username: JsString, password: JsString, now: Timestamp): (r: Outcome)
    ensures r.status == LoggedIn <==>
      username in GetUsers(s) && GetUsers(s)[username].password == Digest(password)
    ensures r.status != LoggedIn ==> r.status == InvalidCredentials && r.store == s
    ensures r.status == LoggedIn ==>
      && GetCurrentSession(r.store) == Some(Session(username, now))
      && GetUsers(r.store) == GetUsers(s)
      && OthersUnchanged(s, r.store, SessionKey)
  {
    var users := GetUsers(s);
    if username !in users then Outcome(InvalidCredentials, s)
    else if users[username].password != Digest(password) then Outcome(InvalidCredentials, s)
    else Outcome(LoggedIn, SaveSession(s, username, now))
  }

  /** `logout` (user.js:99-102). */
  function Logout(s: Store): (r: Outcome)
    ensures r.status == LoggedOut
    ensures !IsLoggedIn(r.store) && GetCurrentUser(r.store) == None && !IsAdmin(r.store)
    ensures SessionKey !in r.store && OthersUnchanged(s, r.store, SessionKey)
  {
    Outcome(LoggedOut, ClearSession(s))
  }

  /** The prefix that marks a user's application data: `username + "_"`. */
  function DataPrefix(username: JsString): JsString
  {
    username + Js("_")
  }

  /** The sweep of user.js:147-154: every key starting with `prefix` goes,
      except the keys in `spare` (the source spares none). */
  function Sweep(s: Store, prefix: JsString, spare: set<JsString>): (r: Store)
    ensures forall k :: k in r <==> k in s && (!StartsWith(k, prefix) || k in spare)
    ensures forall k :: k in r ==> r[k] == s[k]
  {
    map k | k in s && (!StartsWith(k, prefix) || k in spare) :: s[k]
  }

  /** The checks of user.js:124-140 that let a deletion go ahead: a
      non-empty name other than "Cyrus" is logged in, it is in the table, and
      the password's digest matches the stored one. */
  predicate MayDelete(s: Store, password: JsString)
  {
    && GetCurrentUser(s).Some?
    && var u := GetCurrentUser(s).value;
    && u != [] && u != Cyrus && u in GetUsers(s)
    && GetUsers(s)[u].password == Digest(password)
  }

  /** The steps of `deleteAccount` (user.js:123-160), with the keys in
      `spare` exempt from the sweep: the table is saved before the sweep, so
      the sweep sees the table key and removes it unless it is spared. */
  function DeleteWith(s: Store, password: JsString, spare: set<JsString>): (r: Outcome)
    ensures r.status in {NotLoggedIn, ProtectedAdmin, Threw, IncorrectPassword, Deleted}
    ensures r.status == Deleted <==> MayDelete(s, password)
    ensures r.status != Deleted ==> r.store == s
    ensures r.status == Deleted ==>
      GetCurrentUser(s).Some? &&
      var u := GetCurrentUser(s).value;
      && !IsLoggedIn(r.store)
      && (forall k :: k in r.store <==>
            (k in s || k == UsersKey) && k != SessionKey && (!StartsWith(k, DataPrefix(u)) || k in spare))
      && (forall k :: k in r.store && k in s && k != UsersKey ==> r.store[k] == s[k])
      && (UsersKey in r.store ==> GetUsers(r.store) == GetUsers(s) - {u})
  {
    match GetCurrentUser(s)
    case None => Outcome(NotLoggedIn, s)
    case Some(u) =>
      if u == [] then Outcome(NotLoggedIn, s)
      else if u == Cyrus then Outcome(ProtectedAdmin, s)
      else
        var users := GetUsers(s);
        if u !in users then Outcome(Threw, s)
        else if users[u].password != Digest(password) then Outcome(IncorrectPassword, s)
        else Outcome(Deleted, ClearSession(Sweep(SaveUsers(s, users - {u}), DataPrefix(u), spare)))
  }

  /** `deleteAccount` as written: the sweep spares no key. */
  function DeleteAccount(s: Store, password: JsString): (r: Outcome)
    ensures r.status in {NotLoggedIn, ProtectedAdmin, Threw, IncorrectPassword, Deleted}
    ensures r.status == Deleted <==> MayDelete(s, password)
    ensures r.status != Deleted ==> r.store == s
    ensures r.status == Deleted ==>
      GetCurrentUser(s).Some? &&
      var u := GetCurrentUser(s).value;
      && !IsLoggedIn(r.store)
      && (forall k :: k in r.store <==>
            (k in s || k == UsersKey) && k != SessionKey && !StartsWith(k, DataPrefix(u)))
      && (forall k :: k in r.store && k in s && k != UsersKey ==> r.store[k] == s[k])
      && (UsersKey in r.store ==> GetUsers(r.store) == GetUsers(s) - {u})
  {
    DeleteWith(s, password, {})
  }

  /** `initializeAdmin` (user.js:164-175): an empty table (or none at all)
      becomes the single admin record; a non-empty table is left alone. */
  function InitializeAdmin(s: Store, now: Timestamp): (r: Store)
    ensures GetUsers(s) == map[] ==>
      GetUsers(r) == map[Cyrus := UserRecord(Digest(Js("cyrus123")), now, Admin)]
      && OthersUnchanged(s, r, UsersKey)
    ensures GetUsers(s) != map[] ==> r == s
  {
    var users := GetUsers(s);
    if |users| == 0 then SaveUsers(s, users[Cyrus := UserRecord(Digest(Js("cyrus123")), now, Admin)])
    else s
  }

  /** Only "Cyrus" may hold the admin role. */
  predicate AdminsAreCyrus(users: Users)
  {
    forall u :: u in users && users[u].role == Admin ==> u == Cyrus
  }

  /** A store whose table is missing, or present and empty. */
  predicate NoUsers(s: Store)
  {
    GetUsers(s) == map[]
  }

  // ----- register and login -----

  /** A freshly registered user can log in with the same password, and the
      session then names exactly that user. */
  lemma RegisterThenLogin(s: Store, username: JsString, password: JsString, t1: Timestamp, t2: Timestamp)
    requires |username| >= 3 && |password| >= 4 && username !in GetUsers(s)
    ensures Register(s, username, password, t1).status == Created
    ensures var l := Login(Register(s, username, password, t1).store, username, password, t2);
      l.status == LoggedIn && GetCurrentUser(l.store) == Some(username)
  {
  }

  /** Registering a taken name with a password that passes validation fails
      as a duplicate and leaves the first record as it was: the table keeps
      exactly one record per name. */
  lemma RegisterTwice(s: Store, username: JsString, p1: JsString, p2: JsString, t1: Timestamp, t2: Timestamp)
    requires Register(s, username, p1, t1).status == Created
    requires |p2| >= 4
    ensures var s1 := Register(s, username, p1, t1).store;
      Register(s1, username, p2, t2) == Outcome(Duplicate, s1)
      && GetUsers(s1)[username] == NewUser(p1, t1)
  {
  }

  /** Logging in with a password of a different digest is refused, and so is
      an unknown name; both refusals carry the same message, so the reply does
      not reveal whether the name exists. */
  lemma LoginRefusals(s: Store, known: JsString, unknown: JsString, password: JsString, t1: Timestamp, t2: Timestamp)
    requires known in GetUsers(s) && GetUsers(s)[known].password != Digest(password)
    requires unknown !in GetUsers(s)
    ensures Login(s, known, password, t1) == Outcome(InvalidCredentials, s)
    ensures Login(s, unknown, password, t2) == Outcome(InvalidCredentials, s)
    ensures Message(Login(s, known, password, t1).status) == Message(Login(s, unknown, password, t2).status)
  {
  }

  /** The digest is all login compares: a user registered with "AaAa" is
      also let in with "BBBB". */
  lemma LoginAcceptsCollidingPassword(s: Store, username: JsString, t1: Timestamp, t2: Timestamp)
    requires |username| >= 3 && username !in GetUsers(s)
    ensures Register(s, username, Js("AaAa"), t1).status == Created
    ensures Login(Register(s, username, Js("AaAa"), t1).store, username, Js("BBBB"), t2).status == LoggedIn
  {
    Collision();
  }

  /** Each login replaces whatever session there was, for whichever user. */
  lemma LoginReplacesSession(s: Store, u1: JsString, p1: JsString, u2: JsString, p2: JsString, t1: Timestamp, t2: Timestamp)
    requires Login(s, u1, p1, t1).status == LoggedIn
    requires Login(Login(s, u1, p1, t1).store, u2, p2, t2).status == LoggedIn
    ensures GetCurrentSession(Login(Login(s, u1, p1, t1).store, u2, p2, t2).store) == Some(Session(u2, t2))
  {
  }

  // ----- logout -----

  /** Logging out twice is logging out once, and both calls succeed. */
  lemma LogoutIdempotent(s: Store)
    ensures Logout(Logout(s).store) == Logout(s)
    ensures Success(Logout(s).status)
  {
  }

  // ----- deleteAccount -----

  /** The checks of user.js:124-140 run in a fixed order and the first
      failing one decides the reply: no session or an empty name, then the
      admin name, then a name missing from the table (the TypeError), then
      the digest. Only when all pass is the account deleted. */
  lemma DeleteValidation(s: Store, password: JsString)
    ensures var st := DeleteAccount(s, password).status;
      var cu := GetCurrentUser(s);
      && (st == NotLoggedIn <==> cu == None || cu == Some([]))
      && (st == ProtectedAdmin <==> cu == Some(Cyrus))
      && (st == Threw <==>
            cu.Some? && cu.value != [] && cu.value != Cyrus && cu.value !in GetUsers(s))
      && (st == IncorrectPassword <==>
            cu.Some? && cu.value != [] && cu.value != Cyrus && cu.value in GetUsers(s)
            && GetUsers(s)[cu.value].password != Digest(password))
      && (st == Deleted <==>
            cu.Some? && cu.value != [] && cu.value != Cyrus && cu.value in GetUsers(s)
            && GetUsers(s)[cu.value].password == Digest(password))
  {
  }

  /** The admin account can never be deleted: with "Cyrus" logged in the
      call fails and changes nothing, whatever the password. */
  lemma CyrusUndeletable(s: Store, password: JsString)
    requires GetCurrentUser(s) == Some(Cyrus)
    ensures DeleteAccount(s, password) == Outcome(ProtectedAdmin, s)
  {
  }

  /** After a successful deletion nobody is logged in and the deleted name can
      no longer log in, with any password. */
  lemma DeleteEndsAccount(s: Store, password: JsString, again: JsString, now: Timestamp)
    requires DeleteAccount(s, password).status == Deleted
    ensures var r := DeleteAccount(s, password).store;
      && !IsLoggedIn(r)
      && Login(r, GetCurrentUser(s).value, again, now) == Outcome(InvalidCredentials, r)
  {
  }

  /** A successful deletion leaves the session key gone and every key that
      neither is the table nor starts with `username + "_"` as it was. */
  lemma DeleteKeepsForeignKeys(s: Store, password: JsString, k: JsString)
    requires DeleteAccount(s, password).status == Deleted
    requires k in s && k != UsersKey && k != SessionKey
    requires !StartsWith(k, DataPrefix(GetCurrentUser(s).value))
    ensures k in DeleteAccount(s, password).store
    ensures DeleteAccount(s, password).store[k] == s[k]
  {
  }

  // ----- initializeAdmin -----

  /** Bootstrapping twice is bootstrapping once: the second run sees a
      non-empty table. */
  lemma InitializeAdminIdempotent(s: Store, t1: Timestamp, t2: Timestamp)
    ensures InitializeAdmin(InitializeAdmin(s, t1), t2) == InitializeAdmin(s, t1)
  {
  }

  /** After bootstrap the table is never empty and its only admin, if any,
      is "Cyrus"; from an empty table the default credentials log in as the
      admin. */
  lemma InitializeAdminEstablishesAdmin(s: Store, now: Timestamp, later: Timestamp)
    requires AdminsAreCyrus(GetUsers(s))
    ensures var r := InitializeAdmin(s, now);
      && GetUsers(r) != map[]
      && AdminsAreCyrus(GetUsers(r))
      && (NoUsers(s) ==>
            var l := Login(r, Cyrus, Js("cyrus123"), later);
            l.status == LoggedIn && IsAdmin(l.store))
  {
  }

  /** No operation gives a second name the admin role: register always
      creates role 'user', login and logout leave the table alone, and
      deleteAccount only removes records. */
  lemma OperationsKeepAdminsCyrus(s: Store, u: JsString, p: JsString, now: Timestamp)
    requires AdminsAreCyrus(GetUsers(s))
    ensures AdminsAreCyrus(GetUsers(Register(s, u, p, now).store))
    ensures AdminsAreCyrus(GetUsers(Login(s, u, p, now).store))
    ensures AdminsAreCyrus(GetUsers(Logout(s).store))
    ensures AdminsAreCyrus(GetUsers(DeleteAccount(s, p).store))
  {
  }

  // ----- scenarios: the alice walkthrough and the length boundaries -----

  /** Registration's length limits sit exactly at 3 and 4 code units. */
  lemma RegisterBoundaries(s: Store, now: Timestamp)
    requires Js("abc") !in GetUsers(s)
    ensures Register(s, Js("ab"), Js("1234"), now) == Outcome(ShortUsername, s)
    ensures Register(s, Js("abc"), Js("123"), now) == Outcome(ShortPassword, s)
    ensures Register(s, Js("abc"), Js("1234"), now).status == Created
  {
  }

  /** Register "alice"/"wonder", log in, delete the account: afterwards
      nobody is logged in and "alice" can no longer log in. */
  lemma AliceWalkthrough(s: Store, t1: Timestamp, t2: Timestamp, t3: Timestamp)
    requires Js("alice") !in GetUsers(s)
    ensures var s1 := Register(s, Js("alice"), Js("wonder"), t1);
      var s2 := Login(s1.store, Js("alice"), Js("wonder"), t2);
      var s3 := DeleteAccount(s2.store, Js("wonder"));
      && s1.status == Created && s2.status == LoggedIn && s3.status == Deleted
      && !IsLoggedIn(s3.store)
      && Login(s3.store, Js("alice"), Js("wonder"), t3).status == InvalidCredentials
  {
    var alice, wonder := Js("alice"), Js("wonder");
    var s1 := Register(s, alice, wonder, t1);
    RegisterThenLogin(s, alice, wonder, t1, t2);
    var s2 := Login(s1.store, alice, wonder, t2);
    assert alice != Cyrus by { assert alice[0] != Cyrus[0]; }
    assert GetUsers(s2.store)[alice] == NewUser(wonder, t1);
    DeleteEndsAccount(s2.store, wonder, wonder, t3);
  }
}
