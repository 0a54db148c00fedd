# Mirza user service, modelled in Dafny

Mirza is a small team work-logging web application. Users register, receive
access keys, and submit work logs: a date, a start and end time of day, and a
description. A user's periods on one date must not overlap. This project models
the domain service `UserService` that enforces these rules. It covers:

- issuing an access key to an existing, active user;
- deactivating a user's key, where an already inactive key is returned as it is;
- finding the active user who holds an Active, unexpired key;
- admitting a work log, with checks in a fixed order (null, validation, active
  user, same-date overlap) and normalisation of the stored row;
- registering a user whose email no *active* user has;
- soft-deleting a user by clearing its active flag.

Layout:

- `entities.dfy` (module `Entities`): users, access keys, work logs, the
  registration profile, and one error constructor per exception the service lets
  escape. Times are integer minutes. `DateOf` is `DateTime.Date`.
- `access_key_format.dfy` (module `AccessKeyFormat`): the key text that
  `Guid.ToString("N")` prints (32 lower-case hex digits), its inverse, and the
  `OrdinalIgnoreCase` comparison.
- `work_log_overlap.dfy` (module `WorkLogOverlap`): the overlap test of
  `AddWorkLog`, written literally. Every intersecting pair of periods trips it,
  and on proper periods it is exactly half-open interval intersection. Admitting
  a log keeps a user's same-date logs pairwise disjoint.
- `user_store.dfy` (module `UserStore`): the invariant of every stored user row,
  the store queries (`SingleOrDefault`/`Single` semantics included), and the
  "keys only move from Active to Inactive" relation between two stores.
- `user_service.dfy` (module `UserServiceModel`): class `UserService`. It holds
  the user table, keyed by id, and the three identity counters. It has one method
  per service operation. Each method states its error cases in the source's order
  and its entire new state, and keeps `Valid()`. `Valid()` says that every row
  owns its keys and logs, every key is in "N" format, ids stay below the identity
  counters, and a user's logs on one date never overlap. Three client methods at the end
  prove multi-call properties: deactivating twice, issuing twice, and registering
  again after a soft delete.

The EF Core context is the in-memory `users` map plus the identity counters
(`nextUserId`, `nextKeyId`, `nextLogId`; identity columns start at 1). Things
the service gets from outside are parameters instead:

- `Guid.NewGuid()` becomes a caller-supplied `Guid`: its 16 bytes, in the order
  the "N" format prints them.
- `DateTime.UtcNow` becomes a `now` argument.
- The default expiration that the `AccessKey` constructor sets becomes an
  `expiration` argument.
- `UserValidator`, `WorkLogValidator` and `AccessKey.IsActive` are constant
  function fields, given to the constructor. A validator returns the messages of
  its failed rules; an empty list means valid.
- The store the service starts from is a constructor argument: any user table
  and identity counters that meet the store invariant (a fresh database is the
  empty table with counters at 1).

The model assumes one thing of that abstract code, stated as
`ActiveOnlyInActiveState` and required by the constructor: a key whose State is
Inactive is never `IsActive`. The comment at
src/Mirza.Web/Services/User/UserService.cs:88-89 says a key is inactive "due to
expiration or state". Nothing is assumed of the work-log validator: the
disjointness of same-date logs follows from the overlap test alone, for any
periods.

Points where the code does something easy to misread, which the model follows:

- `DeactivateAccessKey` reports a missing key as `AccessKeyException("Invalid
  access key")`. The lookup after the exact test is case-insensitive `Single`.
  When more than one key matches it that way, the code throws
  `InvalidOperationException`, modelled as `NoSingleMatch`.
- `GetUserWithActiveAccessKey` compares the key with `==`, not
  case-insensitively. Because it uses `SingleOrDefault`, two matching users throw
  an exception that is caught, so the result is `None`.
- `DeleteUser` on an id with no user dereferences null. The
  `NullReferenceException` is logged and rethrown (`NullReference`).
- The overlap test has two clauses. The first covers a candidate that starts
  inside the existing period; the second covers one that starts before it and
  ends after it starts. `RuleIsHalfOpenIntersection` proves that together they
  are exactly half-open intersection on periods with start < end, and
  `IntersectionTripsRule` that every intersecting pair trips the test whatever
  its endpoints. This model reports no finding.

## Model

| member | source | states |
|---|---|---|
| `Entities.DateOf` | src/Mirza.Web/Services/User/UserService.cs:174 | `.Date` gives the midnight starting the instant's day: at most the instant, within one day of it, and a whole number of days |
| `AccessKeyFormat.FormatN` | src/Mirza.Web/Services/User/UserService.cs:48 | a new key's text is 32 lower-case hexadecimal digits |
| `AccessKeyFormat.ParseFormatBytes` | src/Mirza.Web/Services/User/UserService.cs:48 | reading the printed digit pairs back gives the Guid's bytes (round trip) |
| `AccessKeyFormat.FormatNInjective` | src/Mirza.Web/Services/User/UserService.cs:48 | two Guids print the same key if and only if they are equal |
| `AccessKeyFormat.ExactMatchIgnoresCase` | src/Mirza.Web/Services/User/UserService.cs:79-85 | an exact match is also a case-insensitive match; the comparison is symmetric |
| `AccessKeyFormat.LowerHexIgnoreCaseIsExact` | src/Mirza.Web/Services/User/UserService.cs:79-85 | on keys in "N" format, case-insensitive equality holds if and only if exact equality does |
| `UserStore.AmbiguousIgnoreCaseMatch` | src/Mirza.Web/Services/User/UserService.cs:79-85 | with keys "a" and "A" held, the argument "a" passes the exact test but the case-insensitive search matches two keys, so `Single` fails |
| `UserStore.SoleMatch` | src/Mirza.Web/Services/User/UserService.cs:84-85 | when `Single` succeeds, it returns the one key position the case-insensitive search matches |
| `UserStore.ExactKeyIsFound` | src/Mirza.Web/Services/User/UserService.cs:79-85 | once the exact test passes, the case-insensitive search matches at least one key; if it matches exactly one, that key equals the argument |
| `UserStore.FormattedKeysMatchOnce` | src/Mirza.Web/Services/User/UserService.cs:79-85 | with distinct keys in "N" format and an argument in that format, the search matches exactly the exact match, so `Single` cannot throw |
| `UserStore.KeyStateKeepsMatches` | src/Mirza.Web/Services/User/UserService.cs:93 | changing a key's State changes the result of neither search |
| `UserStore.KeysMoveForwardTransitive` | src/Mirza.Web/Services/User/UserService.cs:93 | over any run of operations, keys only go from Active to Inactive, and an Inactive key is never reactivated |
| `WorkLogOverlap.AnyConflict` | src/Mirza.Web/Services/User/UserService.cs:158-161 | the `Any` scan is true if and only if some existing log has the candidate's date and trips the time clause |
| `WorkLogOverlap.RuleIsHalfOpenIntersection` | src/Mirza.Web/Services/User/UserService.cs:160-161 | on periods with start < end, the overlap clause is equivalent to `c.start < w.end && w.start < c.end` |
| `WorkLogOverlap.RuleOnReversedPeriod` | src/Mirza.Web/Services/User/UserService.cs:160-161 | the equivalence needs proper periods: a reversed candidate starting inside a logged period is refused although the two share no instant |
| `WorkLogOverlap.BackToBackAccepted` | src/Mirza.Web/Services/User/UserService.cs:160-161 | abutting periods, such as [10:00,11:00) and [11:00,12:00), never trip the clause, in either order |
| `WorkLogOverlap.OtherDatesNeverConflict` | src/Mirza.Web/Services/User/UserService.cs:159 | logs on other dates never conflict with the candidate |
| `WorkLogOverlap.IntersectionTripsRule` | src/Mirza.Web/Services/User/UserService.cs:160-161 | any candidate whose half-open period shares an instant with an existing one trips the overlap test, with no condition on the endpoints |
| `WorkLogOverlap.AdmitKeepsDayDisjoint` | src/Mirza.Web/Services/User/UserService.cs:158-178 | if a user's same-date logs are pairwise disjoint, admitting any candidate that passed the overlap test keeps them disjoint |
| `WorkLogOverlap.OverlapScenario` | src/Mirza.Web/Services/User/UserService.cs:158-166 | with [10:00,11:00) logged: [10:30,10:45) the same date is refused; [11:00,12:00) the same date is admitted; [10:30,10:45) the next date is admitted |
| `UserServiceModel.UserService.constructor` | src/Mirza.Web/Services/User/UserService.cs:20-26 | a service over the given user table and identity counters (any that meet the store invariant), with the given validators, that meets its invariant |
| `UserServiceModel.UserService.GetUser` | src/Mirza.Web/Services/User/UserService.cs:208-211 | the user stored under the id, or none when no user has that id |
| `UserServiceModel.UserService.AddAccessKey` | src/Mirza.Web/Services/User/UserService.cs:30-54 | a missing user fails with "does not exist"; an inactive user fails with "is not active". Otherwise exactly one Active key is appended, owned by the user, with the printed Guid and a fresh id. No other user and no other key changes |
| `UserServiceModel.UserService.DeactivateAccessKey` | src/Mirza.Web/Services/User/UserService.cs:63-97 | fails, in this order: missing user, inactive user, no exactly equal key ("Invalid access key"), case-insensitive search not matching exactly one key. The found key equals the argument. If it is already not active, it is returned and nothing is written; otherwise only its State becomes Inactive. The returned key is not active |
| `UserServiceModel.UserService.GetUserWithActiveAccessKey` | src/Mirza.Web/Services/User/UserService.cs:106-127 | returns a user if and only if exactly one user matches; that user is active, is stored under its id, and holds a key with State Active, expiration >= now and text equal to the argument. Every lookup failure gives none, never an error |
| `UserServiceModel.UserService.AddWorkLog` | src/Mirza.Web/Services/User/UserService.cs:134-180 | rejects, in order: null input, validation messages, missing or inactive user, overlap with a same-date log. Otherwise exactly one log is appended, only to that user, with the date truncated, times copied, null description/details set to "-", the user's id and a fresh id. The user's same-date logs stay disjoint |
| `UserServiceModel.UserService.DeleteUser` | src/Mirza.Web/Services/User/UserService.cs:193-206 | a missing id fails with a null dereference; otherwise only the user's active flag becomes false, and its keys and logs are untouched |
| `UserServiceModel.UserService.Register` | src/Mirza.Web/Services/User/UserService.cs:213-239 | rejects, in order: null input, validation messages, an email an active user has. Otherwise the store grows by exactly the profile under the next id, which was unused, and looking that id up returns the stored user |
| `UserServiceModel.DeactivateTwice` | src/Mirza.Web/Services/User/UserService.cs:86-97 | deactivating the same key twice gives the same result both times, and the store after both calls is the store after one: unchanged when the first call fails, otherwise the old store with only the one case-insensitively matched key replaced by the returned key |
| `UserServiceModel.IssueTwice` | src/Mirza.Web/Services/User/UserService.cs:46-54 | two keys issued from distinct Guids are distinct, both Active and both owned by the user |
| `UserServiceModel.RegisterAfterDelete` | src/Mirza.Web/Services/User/UserService.cs:226-233 | an email whose active holder was soft-deleted can be registered again, under a new id |

## Left out

- Persistence failures: `SaveChangesAsync` errors, which are logged and rethrown, are not modelled, and every save succeeds. A store that changed in memory but failed to save is not modelled.
- Logging, `async`/`ConfigureAwait`, and the EF query translation are framework plumbing and are not modelled.
- The `Include(t => t.Team)` of the key lookup is not modelled, and neither are the user's `Team` navigation and the work log's `TeamId` column. The service's rules do not read them.
- `GetUserWithActiveAccessKey`: of its swallowed failures, only the one from more than one matching user is modelled. Database errors, which also become null, are among the persistence failures left out above.
- The `==` comparisons inside the two database queries (key at line 118, email at line 227) are modelled as exact string equality. Under SQL Server they follow the column's collation and `char(32)` padding, which this model does not capture.
- `OrdinalIgnoreCase` is modelled on ASCII letters only. Upper-casing outside ASCII is not modelled.
- The byte order inside a `Guid` is not modelled. The model takes the 16 bytes in the order "N" format prints them. Global uniqueness of `Guid.NewGuid()` is not modelled either: it is at most a hypothesis (`IssueTwice`, `FormattedKeysMatchOnce`).
- The default expiration the `AccessKey` constructor sets is not modelled, because that constructor is not part of this model; it is an argument. A new key's initial State is taken to be Active.
- `UserValidator`, `WorkLogValidator` and `AccessKey.IsActive` are not part of this model. They are abstract function fields, with the one assumption stated above.
- Times are whole minutes. `DateTime` and `TimeSpan` have a resolution of 100 ns ticks, so sub-minute instants and times of day are not represented; the overlap and date rules read the same at any resolution.
- `GetUser`: `FindAsync` loads no navigation collections, so the source's user carries its keys and logs only when the context already tracks them. The model always returns the whole row with its collections.
- `Register`: the candidate carries only the user's own columns. EF would also insert child keys or logs that a candidate already holds. The model registers users with empty collections.
- In-place updates: users and keys are values replaced in the store's map, not shared objects. A caller holding a returned `AccessKey` or `MirzaUser` does not see later changes, so aliasing among entity objects is not modelled.
- Concurrent calls are outside this sequential model, including the window between the overlap check and the write.
