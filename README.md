# Mergington High School activity service — Dafny model

This project models the backend of the Mergington High School activity service:
an in-memory registry of extracurricular activities, keyed by activity name. Each
activity has a description, a schedule, a maximum participant count and an
ordered list of participant e-mail addresses. Teachers log in, and the session
cookie holds their username. Two handlers change the registry:

- **signup** checks three things in order. A teacher must be logged in (401), the
  activity must exist (404), and the address must not already be listed (400).
  Only then is the address appended to the roster.
- **unregister** needs no login. The activity must exist (404) and the address must
  be listed (400). Then the first occurrence of the address is removed.

Modules:

- `Http` (`http.dfy`): the `Response` datatype (`Ok(message)` or `Err(status, detail)`) and the status codes.
- `Rosters` (`rosters.dfy`): Python's `list.remove` on participant lists (the position it deletes: the first one holding the address), and the duplicate-free property.
- `Activities` (`activities.dfy`): the `Activity` record, the seeded database, and `SignupStep` / `UnregisterStep`. These give the reply and the new database as functions of the old database. The file also holds the lemmas relating the two handlers.
- `Auth` (`auth.dfy`): `verify_teacher`, `get_current_user` and `login`, over a teacher table passed in as a map.
- `App` (`app.py`'s mutable state, `app.dfy`): the class `Registry`. It holds the `activities` dictionary as a `map` field and its key order as a `seq`. Its `Signup` and `Unregister` methods update that field in place and are proved equal to `SignupStep` / `UnregisterStep`. Every method preserves the invariant that no roster holds an address twice.

## Model

| member | source | states |
|---|---|---|
| Rosters.FirstIndex | src/app.py:183 | the index `list.remove` deletes: it holds the address, and no earlier position does |
| Rosters.RemoveFirst | src/app.py:183 | removing one occurrence: length drops by one, multiset loses exactly one copy, elements before the first occurrence are unchanged, later ones shift left by one |
| Rosters.AppendKeepsDistinct | src/app.py:154-161 | appending an address that is not listed keeps the roster duplicate-free |
| Rosters.RemoveKeepsDistinct | src/app.py:176-183 | removing from a duplicate-free roster keeps it duplicate-free, and the address is then absent |
| Rosters.RemoveUndoesAppend | src/app.py:161-183 | appending an absent address and then removing it restores the roster |
| Activities.SignupStep | src/app.py:132-162 | not logged in (None or empty) gives 401 whatever the name and address, and nothing changes; then unknown activity gives 404; then an already listed address gives 400; success exactly when all checks pass; on success the address is appended to that roster only, the roster grows by one, other fields, other activities and the key set are unchanged, and the message is "Signed up {email} for {activity}" |
| Activities.UnregisterStep | src/app.py:165-184 | no login consulted; unknown activity gives 404; an unlisted address gives 400; errors change nothing; success exactly when the activity exists and the address is listed; on success the first occurrence is removed, the roster shrinks by one, everything else is unchanged, and the message is "Unregistered {email} from {activity}" |
| Activities.SignupKeepsNoDuplicates | src/app.py:153-161 | signup preserves "no roster lists an address twice" |
| Activities.UnregisterKeepsNoDuplicates | src/app.py:175-183 | unregister preserves that invariant; after a successful unregister the address is no longer in the roster |
| Activities.UnregisterUndoesSignup | src/app.py:160-184 | a successful signup followed by unregistering the same address succeeds and restores the whole database |
| Activities.SecondSignupRefused | src/app.py:153-158 | repeating a successful signup is refused with 400 and changes nothing |
| Activities.SecondUnregisterRefused | src/app.py:175-180 | on a duplicate-free database, repeating a successful unregister is refused with 400 and changes nothing |
| Activities.Listing | src/app.py:127-129 | the database's entries, one per name, in the given key order, each paired with its record |
| Activities.Seed | src/app.py:64-119 | the initial database has exactly the nine seeded activity names as keys |
| Activities.SeedHasNoDuplicates | src/app.py:64-119 | no initial roster lists an address twice |
| Auth.VerifyTeacher | src/app.py:27-31 | true exactly when the username is a teacher and the hash checker accepts the password against that teacher's stored hash |
| Auth.UnknownTeacherIgnoresHash | src/app.py:29-30 | for an unknown username the answer is false for every hash checker |
| Auth.CurrentUser | src/app.py:33-41 | returns the cookie value exactly when it is present, non-empty and a teacher's username, otherwise None; never returns an empty name |
| Auth.Login | src/app.py:49-55 | succeeds exactly on verified credentials, setting the session to the username; otherwise 401 "Invalid credentials" |
| Auth.LoginEstablishesSession | src/app.py:33-55 | with the same teacher table for both requests (users.json unchanged in between), the cookie set by a successful login passes the session check, unless the username is empty |
| App.Registry.constructor | src/app.py:64-119 | the registry starts as the seeded database, in declaration order, with the invariant established |
| App.Registry.GetActivities | src/app.py:127-129 | every activity exactly once, in insertion order, each with its current record |
| App.Registry.Signup | src/app.py:132-162 | the in-place update and reply equal `SignupStep` on the old state; the invariant and key order are kept |
| App.Registry.SignupWithSession | src/app.py:132-137 | the route runs the session check on the cookie first, then signup on its result |
| App.Registry.Unregister | src/app.py:165-184 | the in-place update and reply equal `UnregisterStep` on the old state; the invariant and key order are kept |
| App.SignupNeedsTeacherSession | src/app.py:139-144 | through the route, a successful signup needs a cookie naming a teacher; any other cookie gets 401 and no change |

## Left out

- FastAPI routing, dependency injection, the static-file mount and the redirect at `/` (src/app.py:8-19, 43-46, 122-124) are framework glue.
- Loading `users.json` (src/app.py:22-24) is file I/O, repeated on every call. The teacher table is a parameter of type `Auth.Teachers`; lemmas that relate two requests assume the file did not change between them.
- werkzeug's `check_password_hash` (src/app.py:15, 31) is a foreign cryptographic routine. It is the function parameter `checkHash`, so every property holds for any checker.
- Setting and deleting the cookie in `login` and `logout` (src/app.py:53, 60) are HTTP response effects. `Auth.Login` returns the value the cookie would receive. `logout` does nothing else and is not modelled.
- `max_participants` is stored but never checked by signup. The model adds no capacity check, and a roster may grow past it.
- `get_activities` returns the live dictionary, so callers share it with the handlers. The model returns a value snapshot and does not capture that aliasing.
- Request handlers are sequential in the model; interleaving of concurrent requests is not modelled. `unregister_from_activity` is a plain `def` (src/app.py:166), which FastAPI runs on a worker thread, so two overlapping unregisters of one address can both pass the membership check (src/app.py:176); the second `remove` (src/app.py:183) then raises ValueError, answered as a 500. The model rules this case out: `Rosters.RemoveFirst` requires the address to be listed, and each `Unregister` runs to completion before the next.
- The browser-side JavaScript client is not part of this model, including its spots-left display and message banner.
