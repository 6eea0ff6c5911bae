# Star Chart user authentication, in Dafny

This project models `UserAuth`, the client-side credential store of the Star
Chart web page (user.js). The store keeps a user table and a single login
session in the browser's `localStorage`. It offers `register`, `login`,
`logout`, `deleteAccount` and the session queries `isLoggedIn`,
`getCurrentUser` and `isAdmin`. Passwords are kept as a 32-bit rolling-hash
digest rendered in base 36. When the page loads with an empty table, it
bootstraps a single admin account, "Cyrus".

Layout:

- `text.dfy` (module `Text`): JavaScript strings as sequences of UTF-16
  code units, and the `startsWith` test.
- `hash.dfy` (module `Hash`): `hashPassword`. It covers ECMAScript ToInt32,
  the loop step exactly as written and the fold it computes, and the
  base-36 rendering with its inverse. The loop itself is the method
  `HashPassword`, proved against the fold.
- `storage.dfy` (module `Storage`): `localStorage` as one map from keys to
  decoded values. The user table lives under "starchart_users", the session
  under "starchart_session", and any other key is opaque application data.
  This module also holds the get/save helpers and the three session queries.
  The queries are pure reads of the store, so they are functions of the map.
- `auth.dfy` (module `Auth`): each operation as a function from the store
  before the call to its status and the store after it. The lemmas here
  relate the operations to each other.
- `user_auth.dfy` (module `UserAuthObject`): the class `UserAuth`. It holds
  `storage` as a field, and its methods update it step by step as the source
  does, including the two-loop key sweep of `deleteAccount`. Each method is
  proved to produce exactly the status and store that the matching `Auth`
  function gives.
- `findings.dfy` (module `Findings`): the table-wiping sweep described
  below, and the corrected `deleteAccount`.

A reply `{success, message}` is modelled as a `Status`. `Auth.Success` and
`Auth.Message` give the two fields, using the source's exact message texts.
`Threw` stands for the TypeError that user.js:138 raises when the session
names a user who is not in the table. In that case no reply is produced and
storage is unchanged.

Notes on the behaviour of user.js, which the model follows:

- The digest is the rolling hash of user.js:33-41, not a cryptographic hash.
- `isAdmin` compares the session's username with "Cyrus". It does not look
  at the `role` field.
- `deleteAccount` also reports "Not logged in" when a session exists but its
  username is the empty string. `isLoggedIn` is true in that state.
- Bootstrap runs once, when the script loads (the `UserAuth` constructor).
  It does not run on every access to an empty table.
- "Cyrus is the only admin" does not hold for every reachable store (see
  Findings).

## Model

| member | source | states |
|---|---|---|
| Hash.ToInt32 | user.js:38 | The result is in the signed 32-bit range and congruent to the input modulo 2^32 (ECMAScript ToInt32, as applied by `hash & hash`). |
| Hash.StepWraps | user.js:37-38 | One loop step, with the shift truncating `hash*32` early, equals `31*hash + charCode` wrapped once to signed 32 bits. |
| Hash.Fold | user.js:34-39 | The accumulator after folding every code unit always lies in [-2^31, 2^31). |
| Hash.Digits | user.js:40 | The base-36 rendering of a non-negative number is non-empty, uses only the digits 0-9a-z, and starts with '0' only for the number 0 (no leading zeros). |
| Hash.Render | user.js:40 | `toString(36)` puts a leading '-' exactly when the number is negative. |
| Hash.RenderRoundTrip | user.js:40 | Parsing the rendering back in base 36 gives the original number. |
| Hash.RenderInjective | user.js:40 | Two numbers render to the same text exactly when they are equal. |
| Hash.HashPassword | user.js:33-41 | The loop over code units yields exactly the rendered fold of the password (deterministic: same password, same digest). |
| Hash.DigestShape | user.js:33-41 | Every digest is between 1 and 7 code units long. |
| Hash.DigestEmpty | user.js:34-40 | The empty password hashes to "0". |
| Hash.DigestMatch | user.js:33-41 | Two digests are equal exactly when the 32-bit folds are equal. |
| Hash.Collision | user.js:33-41 | "AaAa" and "BBBB" are different passwords with the same digest. |
| Storage.ReservedKeysDistinct | user.js:5-29 | The table key and the session key are different keys. |
| Storage.GetUsers | user.js:4-6 | Reading the table gives the stored table, or the empty table when the key is absent. |
| Storage.SaveUsers | user.js:9-11 | After saving, `getUsers` returns exactly the saved table, and every other key keeps its value. |
| Storage.GetCurrentSession | user.js:14-16 | Reading the session gives the stored session, or none when the key is absent. |
| Storage.SaveSession | user.js:19-25 | After saving, the session is exactly {username, loginTime}, whatever it was before. The user table and every other key are untouched. |
| Storage.ClearSession | user.js:28-30 | After clearing there is no session, and every other key keeps its value. |
| Storage.IsLoggedIn | user.js:105-108 | On a store whose reserved keys hold a table and a session, someone is logged in exactly when the session key is stored. |
| Storage.GetCurrentUser | user.js:111-114 | A current user exists exactly when `isLoggedIn` holds. On a store whose reserved keys hold a table and a session, it is the stored session's username, whatever its length (the empty name included). |
| Storage.SessionQueriesIgnoreTable | user.js:105-120 | `isLoggedIn`, `getCurrentUser` and `isAdmin` depend on the session key alone. Two stores that agree on it agree on all three, whatever their user tables hold. |
| Storage.IsAdmin | user.js:117-120 | `isAdmin` holds exactly when a session exists whose username is "Cyrus"; the `role` field is never consulted. |
| Auth.Register | user.js:44-75 | A failure leaves the store unchanged. On success the name was not taken, the table gains exactly {digest of password, createdAt, role 'user'} under that name, and every other key is unchanged. |
| Auth.RegisterValidation | user.js:46-63 | The checks run in order: empty field, then username < 3, then password < 4, then duplicate. Each reply holds exactly when the earlier checks pass and its own fails. |
| Auth.RegisterBoundaries | user.js:50-56 | ("ab","1234") fails on username length, ("abc","123") fails on password length, and ("abc","1234") succeeds when "abc" is free. |
| Auth.RegisterTwice | user.js:58-63 | A second registration of a name, with a password of at least 4 code units, fails as a duplicate, changes nothing, and the first record stays. (A shorter password fails the length check first.) |
| Auth.Login | user.js:78-96 | Success holds exactly when the name is in the table with the digest of the given password. A failure is always "Invalid username or password" with the store unchanged. A success sets the session to exactly {username, now} and changes nothing else. |
| Auth.LoginRefusals | user.js:81-90 | An unknown name and a password whose digest differs from the stored one are both refused, with the same message and no change to the store. |
| Auth.RegisterThenLogin | user.js:44-93 | Registering a free name with valid lengths succeeds, and logging in afterwards with the same password succeeds, with the session naming that user. |
| Auth.LoginAcceptsCollidingPassword | user.js:87-88 | Login compares digests only: a user registered with "AaAa" can also log in with "BBBB". |
| Auth.LoginReplacesSession | user.js:19-25 | A second login replaces the first session rather than merging with it. |
| Auth.Logout | user.js:99-102 | Logout always succeeds. Afterwards nobody is logged in, there is no current user, `isAdmin` is false, and only the session key has changed. |
| Auth.LogoutIdempotent | user.js:99-102 | Logging out twice leaves the same store as logging out once, and it succeeds. |
| Auth.DeleteWith | user.js:123-160 | The deletion steps with a set of keys spared by the sweep. The account is deleted exactly when a non-empty name other than "Cyrus" is logged in, is in the table, and has the password's digest. Every failure leaves the store unchanged. After a deletion nobody is logged in. The keys left are the old keys plus the table key, minus the session key, minus every unspared key starting with `username + "_"`. Surviving keys keep their values, and a surviving table lacks exactly that user. |
| Auth.DeleteAccount | user.js:123-160 | `deleteAccount` as written (nothing spared): deletion happens exactly when the checks pass, every failure leaves the store unchanged, and a deletion removes the session, the user's record and every key starting with `username + "_"`, the table key included when it matches. |
| Auth.DeleteValidation | user.js:124-140 | Each reply holds exactly under its condition: "Not logged in" when there is no session or its name is empty; "Admin account cannot be deleted" for "Cyrus"; the TypeError for a name missing from the table; "Incorrect password" for a digest mismatch; deletion when all checks pass. |
| Auth.Sweep | user.js:147-154 | A key survives the sweep exactly when it was there and either does not start with the prefix or is spared. Surviving keys keep their values. |
| Auth.CyrusUndeletable | user.js:129-132 | With "Cyrus" logged in, `deleteAccount` fails as a protected account and changes nothing, whatever the password. |
| Auth.DeleteEndsAccount | user.js:142-157 | After a successful deletion nobody is logged in, and the deleted name can no longer log in with any password. |
| Auth.DeleteKeepsForeignKeys | user.js:147-154 | A key that is neither reserved nor prefixed by `username + "_"` survives the deletion unchanged. |
| Auth.InitializeAdmin | user.js:164-175 | An empty (or absent) table becomes exactly {Cyrus: digest of "cyrus123", role 'admin'}, with all other keys unchanged. A non-empty table leaves the store unchanged. |
| Auth.InitializeAdminIdempotent | user.js:164-175 | Running the bootstrap twice has the same effect as running it once. |
| Auth.InitializeAdminEstablishesAdmin | user.js:164-175 | If only "Cyrus" held the admin role before, then after bootstrap the table is non-empty and still only "Cyrus" holds it (a non-empty table is left as it is, whatever its admins). From an empty table, logging in with "Cyrus"/"cyrus123" succeeds and `isAdmin` is true. |
| Auth.OperationsKeepAdminsCyrus | user.js:65-70 | If only "Cyrus" held the admin role before, the same is true after register, login, logout and deleteAccount. |
| Auth.AliceWalkthrough | user.js:44-160 | Register "alice"/"wonder", log in, then delete the account: each step succeeds. Afterwards nobody is logged in and logging in as "alice" is refused. |
| UserAuthObject.UserAuth.constructor | user.js:164-175 | Loading the script leaves the store as the admin bootstrap makes it. |
| UserAuthObject.UserAuth.SaveUsers | user.js:9-11 | Writes the table under its key, as `Storage.SaveUsers`. |
| UserAuthObject.UserAuth.SaveSession | user.js:19-25 | Writes the session under its key, as `Storage.SaveSession`. |
| UserAuthObject.UserAuth.ClearSession | user.js:28-30 | Removes the session key, as `Storage.ClearSession`. |
| UserAuthObject.UserAuth.Register | user.js:44-75 | Returns the status and leaves the store exactly as `Auth.Register` says. |
| UserAuthObject.UserAuth.Login | user.js:78-96 | Returns the status and leaves the store exactly as `Auth.Login` says. |
| UserAuthObject.UserAuth.Logout | user.js:99-102 | Returns the status and leaves the store exactly as `Auth.Logout` says. |
| UserAuthObject.UserAuth.SweepKeys | user.js:147-154 | Collecting the matching keys and then removing each one removes exactly the keys that start with the prefix and are not spared. Every other key keeps its value. |
| UserAuthObject.UserAuth.DeleteWith | user.js:123-160 | The checks, the table save, the sweep loops and the session clear, in source order, return the status and leave the store exactly as `Auth.DeleteWith` says. |
| UserAuthObject.UserAuth.DeleteAccount | user.js:123-160 | Returns the status and leaves the store exactly as `Auth.DeleteAccount` says. |
| UserAuthObject.UserAuth.DeleteAccountSparingTable | user.js:143-157 | The corrected deletion (the store's own keys spared) returns the status and leaves the store as `Findings.DeleteAccountSparingTable` says. |
| UserAuthObject.UserAuth.InitializeAdmin | user.js:164-175 | Leaves the store exactly as `Auth.InitializeAdmin` says. |
| Findings.SweepReachesTableOnlyFromStarchart | user.js:150 | The key "starchart_users" starts with `username + "_"` for exactly one username: "starchart". |
| Findings.StarchartDeletionWipesTable | user.js:143-154 | When "starchart" deletes their own account, the whole user table disappears, including the admin record. |
| Findings.AdminTakeoverAfterWipe | user.js:44-120 | After that wipe, anyone can register "Cyrus" with a password of their own (as role 'user'), log in, and pass `isAdmin`. |
| Findings.DeleteAccountSparingTable | user.js:123-160 | The corrected deletion fails in exactly the cases and ways `deleteAccount` does, and succeeds exactly when it does. |
| Findings.CorrectedDeleteKeepsOtherUsers | user.js:143-157 | With the corrected sweep, the table afterwards is the old table minus just the deleting user. The admin record survives, and "Cyrus" stays taken. |

## Findings

| source | as written | input that shows it | evidently intended | confidence | as-written member | corrected member |
|---|---|---|---|---|---|---|
| user.js:143-154 | The table is saved under "starchart_users" before the sweep. The sweep then removes every key starting with `username + "_"`, and for username "starchart" that includes the table key. | Register "starchart", log in, then call `deleteAccount` with the right password. The table is gone, the admin record with it, and "Cyrus" can then be registered by anyone and passes `isAdmin`. | Only that user's record and that user's application data are removed. Other users and the admin record stay. | high; not executed | Findings.StarchartDeletionWipesTable | Findings.CorrectedDeleteKeepsOtherUsers |

## Left out

- JSON encoding and decoding of the two blobs. The store holds decoded values, and a blob that does not parse is not modelled. The constructor requires the two reserved keys to hold a table and a session.
- `new Date().toISOString()` is a caller-supplied `Timestamp` parameter, and the model never inspects it.
- `console.log` in the bootstrap (user.js:173) is not modelled: it only prints.
- The `localStorage` API is reduced to a map. Its key order is not modelled: the sweep visits keys in an arbitrary order, and the result does not depend on it. Quota errors from `setItem` are not modelled.
- Inherited properties of JavaScript plain objects are not modelled. For example, `users["constructor"]` is truthy at user.js:61 and user.js:82. The table is a plain finite map.
- `null` or `undefined` arguments are not modelled. Arguments are strings; for `register` a missing argument gives the same reply as an empty one.
- A SHA-256 digest variant does not appear in user.js and is not part of this model.
- Concurrent or interleaved calls are not modelled. The source is single-threaded.
- Text.Js converts only the ASCII string literals of the source (keys, messages, "Cyrus", "cyrus123"), one character to one code unit.
