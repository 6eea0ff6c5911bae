/** The `UserAuth` object of user.js: its methods read the store, check,
    and write the store back in place. Each method is proved to leave the
    store exactly as the matching function of module Auth says. */
module UserAuthObject {
  import opened Text
  import opened Hash
  import opened Storage
  import opened Auth
  import Findings

  class UserAuth {
    /** `localStorage`, decoded. */
    var storage: Store

    ghost predicate Valid()
      reads this
    {
      WellFormed(storage)
    }

    /** Loading the script: the store as the browser holds it, then the
        admin bootstrap of user.js:164-175. */
    constructor (initial: Store, now: Timestamp)
      requires WellFormed(initial)
      ensures Valid()
      ensures storage == Auth.InitializeAdmin(initial, now)
    {
      storage := initial;
      new;
      InitializeAdmin(now);
    }

    /** `saveUsers` (user.js:9-11). */
    method SaveUsers(users: Users)
      requires Valid()
      modifies this
      ensures Valid()
      ensures storage == Storage.SaveUsers(old(storage), users)
    {
      ReservedKeysDistinct();
      storage := storage[UsersKey := UsersV(users)];
    }

    /** `saveSession` (user.js:19-25). */
    method SaveSession(username: JsString, now: Timestamp)
      requires Valid()
      modifies this
      ensures Valid()
      ensures storage == Storage.SaveSession(old(storage), username, now)
    {
      ReservedKeysDistinct();
      storage := storage[SessionKey := SessionV(Session(username, now))];
    }

    /** `clearSession` (user.js:28-30). */
    method ClearSession()
      requires Valid()
      modifies this
      ensures Valid()
      ensures storage == Storage.ClearSession(old(storage))
    {
      storage := storage - {SessionKey};
    }

    /** `register` (user.js:44-75). */
    method Register(username: JsString, password: JsString, now: Timestamp) returns (status: Status)
      requires Valid()
      modifies this
      ensures Valid()
      ensures status == Auth.Register(old(storage), username, password, now).status
      ensures storage == Auth.Register(old(storage), username, password, now).store
    {
      if username == [] || password == [] {
        return MissingField;
      }
      if |username| < 3 {
        return ShortUsername;
      }
      if |password| < 4 {
        return ShortPassword;
      }
      var users := GetUsers(storage);
      if username in users {
        return Duplicate;
      }
      var digest := HashPassword(password);
      users := users[username := UserRecord(digest, now, User)];
      SaveUsers(users);
      status := Created;
    }

    /** `login` (user.js:78-96). */
    method Login(username: JsString, password: JsString, now: Timestamp) returns (status: Status)
      requires Valid()
      modifies this
      ensures Valid()
      ensures status == Auth.Login(old(storage), username, password, now).status
      ensures storage == Auth.Login(old(storage), username, password, now).store
    {
      var users := GetUsers(storage);
      if username !in users {
        return InvalidCredentials;
      }
      var digest := HashPassword(password);
      if users[username].password != digest {
        return InvalidCredentials;
      }
      SaveSession(username, now);
      status := LoggedIn;
    }

    /** `logout` (user.js:99-102). */
    method Logout() returns (status: Status)
      requires Valid()
      modifies this
      ensures Valid()
      ensures status == Auth.Logout(old(storage)).status
      ensures storage == Auth.Logout(old(storage)).store
    {
      ClearSession();
      status := LoggedOut;
    }

    /** The two loops of user.js:147-154: collect every key that starts with
        `prefix` (and is not in `spare`), then remove each collected key. */
    method SweepKeys(prefix: JsString, spare: set<JsString>)
      requires Valid()
      modifies this
      ensures Valid()
      ensures storage == Sweep(old(storage), prefix, spare)
    {
      var keysToRemove: seq<JsString> := [];
      var unvisited := storage.Keys;
      while unvisited != {}
        invariant unvisited <= storage.Keys
        invariant forall k :: k in keysToRemove <==>
          k in storage && k !in unvisited && StartsWith(k, prefix) && k !in spare
        decreases unvisited
      {
        var key :| key in unvisited;
        if StartsWith(key, prefix) && key !in spare {
          keysToRemove := keysToRemove + [key];
        }
        unvisited := unvisited - {key};
      }
      ghost var before := storage;
      for i := 0 to |keysToRemove|
        invariant storage.Keys == before.Keys - set j | 0 <= j < i :: keysToRemove[j]
        invariant forall k :: k in storage ==> k in before && storage[k] == before[k]
        invariant WellFormed(storage)
      {
        storage := storage - {keysToRemove[i]};
      }
      assert forall k :: k in keysToRemove <==> exists j :: 0 <= j < |keysToRemove| && keysToRemove[j] == k;
      assert storage.Keys == Sweep(before, prefix, spare).Keys;
    }

    /** The steps of `deleteAccount` (user.js:123-160) in source order, with
        the keys in `spare` exempt from the sweep. */
    method DeleteWith(password: JsString, spare: set<JsString>) returns (status: Status)
      requires Valid()
      modifies this
      ensures Valid()
      ensures status == Auth.DeleteWith(old(storage), password, spare).status
      ensures storage == Auth.DeleteWith(old(storage), password, spare).store
    {
      var current := GetCurrentUser(storage);
      if current.None? || current.value == [] {
        return NotLoggedIn;
      }
      var username := current.value;
      if username == Cyrus {
        return ProtectedAdmin;
      }
      var users := GetUsers(storage);
      var digest := HashPassword(password);
      if username !in users {
        // `users[username].password` on an undefined entry: a TypeError
        return Threw;
      }
      if users[username].password != digest {
        return IncorrectPassword;
      }
      users := users - {username};
      SaveUsers(users);
      SweepKeys(DataPrefix(username), spare);
      ClearSession();
      status := Deleted;
    }

    /** `deleteAccount` as written: the sweep spares no key. */
    method DeleteAccount(password: JsString) returns (status: Status)
      requires Valid()
      modifies this
      ensures Valid()
      ensures status == Auth.DeleteAccount(old(storage), password).status
      ensures storage == Auth.DeleteAccount(old(storage), password).store
    {
      status := DeleteWith(password, {});
    }

    /** The corrected `deleteAccount`: the sweep leaves the store's own two
        keys alone. */
    method DeleteAccountSparingTable(password: JsString) returns (status: Status)
      requires Valid()
      modifies this
      ensures Valid()
      ensures status == Findings.DeleteAccountSparingTable(old(storage), password).status
      ensures storage == Findings.DeleteAccountSparingTable(old(storage), password).store
    {
      status := DeleteWith(password, Findings.ReservedKeys);
    }

    /** `initializeAdmin` (user.js:164-175). */
    method InitializeAdmin(now: Timestamp)
      requires Valid()
      modifies this
      ensures Valid()
      ensures storage == Auth.InitializeAdmin(old(storage), now)
    {
      var users := GetUsers(storage);
      if |users| == 0 {
        var digest := HashPassword(Js("cyrus123"));
        users := users[Cyrus := UserRecord(digest, now, Admin)];
        SaveUsers(users);
      }
    }
  }
}
