/** `deleteAccount` saves the shrunken table under "starchart_users" and then
    removes every key that starts with `username + "_"`. For the username
    "starchart" that prefix covers the table's own key, so deleting that one
    account deletes every account. This module shows the consequence on the
    code as written and proves the corrected sweep, which leaves the store's
    own two keys alone, free of it. */
module Findings {
  import opened Text
  import opened Hash
  import opened Storage
  import opened Auth

  const Starchart: JsString := Js("starchart")

  /** The store's own keys, which the user-data sweep should never touch. */
  const ReservedKeys: set<JsString> := {UsersKey, SessionKey}

  /** The table key falls under a user's data prefix for exactly one
      username: "starchart". */
  lemma SweepReachesTableOnlyFromStarchart(u: JsString)
    ensures StartsWith(UsersKey, DataPrefix(u)) <==> u == Starchart
  {
    var p := DataPrefix(u);
    if StartsWith(UsersKey, p) {
      // the only '_' of "starchart_users" is at index 9
      assert UsersKey[|u|] == p[|u|] == 95;
      assert forall i :: 0 <= i < |UsersKey| && UsersKey[i] == 95 ==> i == 9;
      assert |u| == 9;
      assert u == UsersKey[..9];
      assert UsersKey[..9] == Starchart;
    }
    if u == Starchart {
      assert p == UsersKey[..10];
    }
  }

  /** As written: when "starchart" deletes their account, the whole table
      goes, including every other user and the admin record. */
  lemma StarchartDeletionWipesTable(s: Store, password: JsString)
    requires GetCurrentUser(s) == Some(Starchart)
    requires Starchart in GetUsers(s) && GetUsers(s)[Starchart].password == Digest(password)
    ensures DeleteAccount(s, password).status == Deleted
    ensures NoUsers(DeleteAccount(s, password).store)
  {
  }

  /** As written, the wipe opens the admin name: after it, anyone may
      register "Cyrus" with a password of their own, log in, and pass
      `isAdmin`, although the new record's role is 'user'. */
  lemma AdminTakeoverAfterWipe(s: Store, password: JsString, chosen: JsString, t1: Timestamp, t2: Timestamp)
    requires GetCurrentUser(s) == Some(Starchart)
    requires Starchart in GetUsers(s) && GetUsers(s)[Starchart].password == Digest(password)
    requires |chosen| >= 4
    ensures var wiped := DeleteAccount(s, password).store;
      var reg := Register(wiped, Cyrus, chosen, t1);
      var log := Login(reg.store, Cyrus, chosen, t2);
      && reg.status == Created
      && GetUsers(reg.store)[Cyrus].role == User
      && log.status == LoggedIn
      && IsAdmin(log.store)
  {
  }

  /** Corrected `deleteAccount`: the same checks, but the sweep spares the
      store's own keys. */
  function DeleteAccountSparingTable(s: Store, password: JsString): (r: Outcome)
    ensures r.status != Deleted ==> r.store == s && r == DeleteAccount(s, password)
    ensures r.status == Deleted ==> DeleteAccount(s, password).status == Deleted
  {
    DeleteWith(s, password, ReservedKeys)
  }

  /** Corrected: deleting an account removes that user's record and no other;
      in particular the admin record survives, so "Cyrus" stays taken. */
  lemma CorrectedDeleteKeepsOtherUsers(s: Store, password: JsString, now: Timestamp, chosen: JsString)
    requires DeleteAccountSparingTable(s, password).status == Deleted
    requires |chosen| >= 4
    ensures var r := DeleteAccountSparingTable(s, password).store;
      && GetUsers(r) == GetUsers(s) - {GetCurrentUser(s).value}
      && !IsLoggedIn(r)
      && (Cyrus in GetUsers(s) ==>
            GetUsers(r)[Cyrus] == GetUsers(s)[Cyrus]
            && Register(r, Cyrus, chosen, now).status == Duplicate)
  {
  }
}
