# Mergington High School record store, in Dafny

This project models the in-memory business logic behind the Mergington High
School activities API (`src/app.py`). The logic consists of two independent stores:

- **Account store.** There are two collections of user records, `"students"` and `"clubs"`.
  Each collection maps an email to a record `{name, password, profile{name, bio}}`.
  It has five handlers: `register_user`, `login_user`, `get_profile`,
  `update_profile` and `change_password`.
- **Activity roster.** This is a fixed map from activity name to
  `{description, schedule, max_participants, participants}`. It starts with nine
  seeded activities. Its handlers are `get_activities`, `signup_for_activity`
  and `unregister_from_activity`.

The project has five modules:

- `Outcomes` (outcomes.dfy) holds the `Result`/`Option` types. It also has one `Error`
  constructor for each distinct failure a handler raises. A failure leaves the stores
  unchanged.
- `Accounts` (accounts.dfy) is the account store as values. Each handler is a function
  from the collections to an answer and the new collections, with lemmas that relate the
  handlers to one another.
- `AccountStore` (account_store.dfy) holds class `Store`. It owns the collections in a
  field that its methods update in place. Each method is proved to leave exactly the
  state that the matching `Accounts` function describes.
- `Roster` (roster.dfy) is the roster as values. It has the verbatim seed, `list.remove`
  as `RemoveFirst`, and the signup and unregister handlers. It also has the
  no-duplicates invariant and the round-trip lemmas.
- `RosterStore` (roster_store.dfy) holds class `ActivityRoster`. It owns the activity map,
  and its methods are tied to the `Roster` functions. Its object invariant says that the
  set of activities is the seeded one and that no activity lists an email twice.

The source file does not parse as Python as it stands. The request models and the account
handlers (src/app.py:33-101) sit inside the `activities = {` literal opened at line 32.
The model follows the evident layout instead: the account handlers are top-level
operations, and the roster starts with the entries at lines 102-155.

Three behaviours of the code look unintended; the model keeps them:

- Signup does not check `max_participants` (src/app.py:186-187). The model does not
  check it either, and `Roster.SignUpIgnoresCapacity` states this.
- A wrong current password in `change_password` fails with its own error,
  `IncorrectPassword` ("Current password incorrect"). This is not the login error
  `InvalidCredentials`.
- The new password of `change_password` is read from the body's `name` field
  (src/app.py:100), not from a dedicated field. See "## Findings".

## Model

| member | source | states |
|---|---|---|
| `Accounts.TitleFrom` | src/app.py:58 | the title-casing scan: same length; a character after a cased one is lowered, any other is raised |
| `Accounts.Title` | src/app.py:58 | `str.title()`: each character that starts a word is upper-case and every other character is lower-case |
| `Accounts.TitleOfCollections` | src/app.py:58 | the two collection names title-case to "Students" and "Clubs", as the success messages show |
| `Accounts.Register` | src/app.py:48-58 | fails with InvalidUserType for an unknown collection and with UserAlreadyExists for a present email, changing nothing; otherwise inserts `{name, password, profile{name, ""}}` under the email, and no other record or collection changes |
| `Accounts.Login` | src/app.py:61-67 | succeeds iff the email is present and the stored password equals the supplied one; answers with the stored profile; otherwise InvalidUserType or InvalidCredentials; it changes nothing |
| `Accounts.GetProfile` | src/app.py:70-76 | returns the stored profile iff the email is present, and fails with UserNotFound or InvalidUserType otherwise |
| `Accounts.Updated` | src/app.py:85-88 | a supplied name or bio replaces the stored one; an omitted one is kept |
| `Accounts.UpdateProfile` | src/app.py:79-89 | for a present email, only the profile fields supplied change; the record's name, its password and every other record stay; the reply carries the new profile; errors change nothing |
| `Accounts.ChangePassword` | src/app.py:92-101 | for a present email with the right current password, the password becomes the body's `name` field and the name and profile stay; otherwise UserNotFound, IncorrectPassword or InvalidUserType with no change |
| `Accounts.ChangePasswordAsWritten` | src/app.py:92-101 | the handler as declared never changes state and always fails; with the right current password it fails on the missing `name` attribute |
| `Accounts.HandlersKeepCollections` | src/app.py:26-29 | no handler adds or removes a collection |
| `Accounts.RegisterTwiceFails` | src/app.py:51-52 | a second registration of an email in the same collection fails, whatever it carries |
| `Accounts.RegisterInBothCollections` | src/app.py:26-58 | the same email can be registered in both collections, and each keeps its own record |
| `Accounts.RegisterThenLogin` | src/app.py:53-67 | after registering, login succeeds exactly with the registered password and shows the registered name with an empty bio |
| `Accounts.UpdateThenGetProfile` | src/app.py:79-89 | the profile that update_profile answers with is the one get_profile then reads |
| `Accounts.UpdateProfileIdempotent` | src/app.py:85-88 | repeating the same update changes nothing further |
| `Accounts.EmptyUpdateChangesNothing` | src/app.py:85-88 | an update with neither field supplied leaves the collections as they were |
| `Accounts.UpdateKeepsLogin` | src/app.py:85-88 | a profile update never changes whether a login succeeds; a failing login fails with the same error as before, and a successful one shows the updated profile |
| `Accounts.ChangePasswordThenLogin` | src/app.py:98-100 | after a change, the new password logs in as the old one did, and the old one fails unless it equals the new one |
| `Accounts.ChangePasswordAsWrittenFails` | src/app.py:92-101 | for a registered student with the right current password, the handler as written fails and keeps the old password, while the intended handler stores the new one |
| `AccountStore.Store.constructor` | src/app.py:26-29 | the store starts with the two collections, both empty |
| `AccountStore.Store.RegisterUser` | src/app.py:48-58 | updates the store in place exactly as `Accounts.Register` and keeps both collections |
| `AccountStore.Store.LoginUser` | src/app.py:61-67 | reads only; succeeds iff the email is present with that password; answers as `Accounts.Login` |
| `AccountStore.Store.GetProfile` | src/app.py:70-76 | reads only; succeeds iff the email is present; answers as `Accounts.GetProfile` |
| `AccountStore.Store.UpdateProfile` | src/app.py:79-89 | assigns the supplied profile fields in place, exactly as `Accounts.UpdateProfile` |
| `AccountStore.Store.ChangePassword` | src/app.py:92-101 | verifies, then overwrites the password in place, exactly as `Accounts.ChangePassword` |
| `Roster.IndexOf` | src/app.py:209 | the position of the first occurrence: it holds the email and no earlier position does |
| `Roster.RemoveFirst` | src/app.py:209 | `list.remove`: for a present email, the list with its first occurrence cut out and everything else in order; for an absent email the model returns the list unchanged (see "## Left out") |
| `Roster.RemoveFirstMultiset` | src/app.py:209 | removal takes away exactly one copy of the email |
| `Roster.RemoveFirstKeepsNoDuplicates` | src/app.py:209 | removing from a list without duplicates leaves one without duplicates that no longer holds the email |
| `Roster.AppendKeepsNoDuplicates` | src/app.py:180-187 | appending an email that is not yet listed keeps the list free of duplicates |
| `Roster.RemoveFirstAfterAppend` | src/app.py:187-209 | removing an email just appended to a list that lacked it gives the list back |
| `Roster.SignUp` | src/app.py:170-188 | fails with ActivityNotFound or AlreadySignedUp, changing nothing; otherwise the list becomes the old one plus the email at the end, the activity's other fields and every other activity stay, and capacity is not consulted |
| `Roster.Unregister` | src/app.py:192-210 | fails with ActivityNotFound or NotSignedUp, changing nothing; otherwise the first occurrence is cut out with the order kept (one copy fewer), and nothing else changes |
| `Roster.Listing` | src/app.py:164-166 | the listing holds each named activity with its record, in the given order |
| `Roster.SeedOrderInSeed` | src/app.py:102-155 | every name in the declaration order is a seeded activity |
| `Roster.SeedInSeedOrder` | src/app.py:102-155 | every seeded activity appears in the declaration order |
| `Roster.SeedOrderDistinct` | src/app.py:102-155 | no name appears twice in the declaration order |
| `Roster.SeedInvariant` | src/app.py:102-155 | no seeded activity lists an email twice |
| `Roster.ChessClubSeed` | src/app.py:102-107 | Chess Club starts with michael and daniel |
| `Roster.SignUpKeepsInvariant` | src/app.py:180-187 | signup preserves "no activity lists an email twice" |
| `Roster.UnregisterKeepsInvariant` | src/app.py:202-209 | unregister preserves "no activity lists an email twice" |
| `Roster.SignUpThenUnregister` | src/app.py:170-210 | a successful signup followed by unregistering the same email restores the roster exactly |
| `Roster.UnregisterThenSignUp` | src/app.py:170-210 | on a roster without duplicates, a removed email can sign up again; it returns at the end of the list with the same members |
| `Roster.SignUpTwiceFails` | src/app.py:180-184 | a second signup of the same email is refused with AlreadySignedUp |
| `Roster.UnregisterTwiceFails` | src/app.py:202-206 | on a roster without duplicates, a second unregister of the same email is refused with NotSignedUp |
| `Roster.UnregisterLeavesDuplicate` | src/app.py:209 | without the invariant, an email listed twice survives one unregister |
| `Roster.SignUpIgnoresCapacity` | src/app.py:186-187 | a full activity still accepts a new email and goes past `max_participants` |
| `Roster.SignUpUnregisterSequence` | src/app.py:170-210 | signup, signup, unregister, unregister: success, AlreadySignedUp, success, NotSignedUp, and the roster ends as it began |
| `Roster.FreshRosterScenario` | src/app.py:102-210 | on the seeded roster: "Signed up new@m.edu for Chess Club", then AlreadySignedUp, then "Unregistered new@m.edu from Chess Club", then NotSignedUp |
| `RosterStore.ActivityRoster.constructor` | src/app.py:102-155 | the roster starts as the seed, which satisfies the invariant |
| `RosterStore.ActivityRoster.GetActivities` | src/app.py:164-166 | every activity with its current record, in declaration order, each listed once |
| `RosterStore.ActivityRoster.SignupForActivity` | src/app.py:169-188 | appends in place exactly as `Roster.SignUp` and keeps the invariant |
| `RosterStore.ActivityRoster.UnregisterFromActivity` | src/app.py:191-210 | removes in place exactly as `Roster.Unregister` and keeps the invariant |

## Findings

| source | as written | input that shows it | evidently intended | confidence | as-written member | corrected member |
|---|---|---|---|---|---|---|
| src/app.py:92-101 | `change_password` declares its body as `UserLogin`, which has only `email` and `password` (src/app.py:38-40). It then reads `data.name`, which raises an attribute error once the current password has matched, so nothing is ever stored. | a registered student `a@m.edu` with password `old`, who sends body `{email: a@m.edu, password: old, name: new}` | the body carries a `name` field (the `UserRegister` shape), and `name` becomes the new password, as the comment on line 100 says | high; not executed | `Accounts.ChangePasswordAsWritten`, `Accounts.ChangePasswordAsWrittenFails` | `Accounts.ChangePassword` |

The rest of the model uses the corrected handler: `AccountStore.Store.ChangePassword`
is tied to `Accounts.ChangePassword`.

## Left out

- The HTTP layer is not modelled: the FastAPI app, route decorators, the `/static` mount
  and the root redirect (src/app.py:14-20 and 159-161). Status codes are left out too;
  each failure is an `Error` constructor.
- Request validation by the Pydantic models is not modelled. This covers missing or
  mistyped fields in a body. The bodies are plain datatypes, and an omitted profile field
  is `None`.
- Aliasing is not modelled. `login_user` and `get_profile` return the stored profile dict
  itself, and `get_activities` returns the live activities dict. In the model, each of
  them returns a value.
- Accounts.Title: this is `str.title()` on ASCII letters only. Other cased Unicode
  characters are neither raised nor lowered. It is only ever applied to the two
  collection names.
- Roster.RemoveFirst: Python's `list.remove` raises ValueError for an absent value, but
  the model returns the list unchanged. Unregister checks membership first
  (src/app.py:202), so the handler never reaches this case.
- `if not user` is modelled as "email absent". A stored record is a non-empty dict, so it
  is always truthy.
- Concurrency is not modelled. The source takes no locks, and each handler is one
  read-modify-write step.
- Capacity enforcement is not modelled, because the code does not do it.
