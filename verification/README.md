# uncommondata accounts and access guards, in Dafny

This project models the account core of the `uncommondata` Django application:

- **Access guards.** `api_login_required` answers 401 "Authentication required" to an anonymous caller. `curator_required` answers 401 first, then 403 "Curator privileges required" to a signed-in non-curator. Otherwise each guard calls the wrapped view (module `Guards`).
- **The account store.** Django `User` rows each get one `UserProfile` that carries the curator flag. The `post_save` receiver creates the profile as a non-curator ("Harvester"). The profile is deleted with its user (cascade). `str(profile)` is its label (module `Accounts`).
- **Registration.** `create_user_api` is a pure transition `Store × Form → (Response, Store)` with the view's checks in order:
  - strip email and username, but not the password;
  - refuse a missing field;
  - refuse a duplicate email, then a duplicate username;
  - parse the flag with `int()`;
  - only then create the account and set its flag (module `Registration`).
- **Python text functions.** The view relies on `str.strip()` and `int()`. They are modelled in module `PyText`. `strip` removes Python's full `str.isspace` set. `int` ignores a narrower set around the number: the ASCII separators U+001C to U+001F count as whitespace for `strip` but not for `int`. Between the ignored characters, `int` takes an optional sign, ASCII digits and single `_` separators.

The ORM is an immutable `Store`:

- users by primary key;
- profiles in insertion order;
- the next primary key.

`Accounts.Valid` describes the stores the modelled operations reach from the empty database: keys below the next one, unique usernames, exactly one profile per user, and no orphan profiles. The one-to-one field guarantees at most one profile per user. The `post_save` receiver supplies the "at least one". Inserting a new user together with the receiver's profile preserves `Valid` (`Accounts.InsertedUserValid`). So do `Accounts.SaveUser`, `Accounts.SetCurator` and `Accounts.DeleteUser`. The receiver on its own preserves `Valid` only for a freshly inserted user: on a store where the user already has a profile, a second call with `created` true would add a second one.

Django's `create_user` normalises the email before storing it. The model follows it: it strips the address, splits at the last `@`, and lower-cases the domain.

The code's error message and its behaviour disagree on the curator flag. The message says "is_curator must be 0 or 1" (`uncommondata/core/views.py:95`). But the code accepts any text `int()` parses, and any nonzero value makes a curator (`uncommondata/core/views.py:70`). The model follows the behaviour.

## Model

| member | source | states |
|---|---|---|
| Guards.LoginDecision | uncommondata/core/decorators.py:10-15 | the login guard lets a caller through exactly when signed in, and otherwise rejects with 401 "Authentication required" |
| Guards.RoleDecision | uncommondata/core/decorators.py:30-34 | the role check passes exactly a curator, and otherwise rejects with 403 "Curator privileges required" |
| Guards.CuratorDecision | uncommondata/core/decorators.py:25-35 | the curator guard passes exactly a signed-in curator; an anonymous caller gets 401 and a signed-in non-curator gets 403 |
| Guards.Wrap | uncommondata/core/decorators.py:9-15 | a rejected request gets the guard's JSON error with the state untouched and the view run zero times; an accepted one gets the view's reply and state, with the view run once |
| Guards.ApiLoginRequired | uncommondata/core/decorators.py:4-16 | the decorated view answers 401 "Authentication required" to an anonymous caller without running the view, and otherwise returns exactly the view's reply and state |
| Guards.CuratorRequired | uncommondata/core/decorators.py:18-36 | the decorated view answers 401 to an anonymous caller, 403 "Curator privileges required" to a signed-in non-curator, neither running the view, and otherwise returns exactly the view's reply and state |
| Guards.LoginRequiredRejectsAnonymous | uncommondata/core/decorators.py:10-14 | an anonymous request to a login-required view gets 401 "Authentication required" and changes nothing |
| Guards.LoginRequiredPassesThrough | uncommondata/core/decorators.py:15 | a signed-in request gets exactly the view's result for the same request |
| Guards.CuratorRequiredRejectsAnonymous | uncommondata/core/decorators.py:25-29 | an anonymous request to a curator view gets 401 whatever its curator flag, so 401 comes before 403 |
| Guards.CuratorRequiredForbidsHarvester | uncommondata/core/decorators.py:30-34 | a signed-in non-curator gets 403 "Curator privileges required" and changes nothing |
| Guards.CuratorRequiredPassesThrough | uncommondata/core/decorators.py:35 | a signed-in curator gets exactly the view's result |
| Guards.RejectionIgnoresView | uncommondata/core/decorators.py:24-35 | once a guard rejects, the answer and the state do not depend on the view at all, and the view is never run |
| Guards.SameAuthenticationCondition | uncommondata/core/decorators.py:10-25 | both guards answer 401 on exactly the same condition: the caller is not signed in |
| Guards.CuratorIsLoginThenRole | uncommondata/core/decorators.py:23-35 | the curator guard is the login guard followed by the role check |
| Guards.RoleFirstWouldDiffer | uncommondata/core/decorators.py:25-34 | swapping the two checks would answer 403 where the source answers 401, so the order is observable |
| Guards.CuratorStricterThanLogin | uncommondata/core/decorators.py:10-35 | every request the curator guard admits, the login guard admits; where the login guard rejects, both reject alike |
| PyText.Strip | uncommondata/core/views.py:51-52 | `strip()` returns the characters of one slice of the text, in order, and only whitespace lies outside that slice; the result is empty exactly when the text is all whitespace, and otherwise starts and ends with a non-space |
| PyText.StripPadded | uncommondata/core/views.py:51-52 | independent reference: whitespace on both sides of a text with non-space ends is exactly what `strip()` removes |
| PyText.StripIdempotent | uncommondata/core/views.py:51-52 | stripping twice is the same as stripping once |
| PyText.IntStrip | uncommondata/core/views.py:70 | what `int()` ignores: one slice of the text is kept in order, only characters of `IntWhitespace` (`str.isspace` minus U+001C to U+001F) lie outside it, and the result is empty exactly when the whole text is such characters |
| PyText.IntStripPadded | uncommondata/core/views.py:70 | independent reference: characters of `IntWhitespace` on both sides of a text whose ends are not such characters are exactly what `int()` ignores |
| PyText.IntStripKeepsNonzeroDigits | uncommondata/core/views.py:70 | trimming for `int()` neither adds nor loses a nonzero digit |
| PyText.ParseInt | uncommondata/core/views.py:70 | `int()` accepts exactly the texts that, with the characters of `IntWhitespace` trimmed from both ends, are an optional sign followed by ASCII digits with single `_` separators between digits; the value is the sign times the digits' number; it is zero exactly when the text has no nonzero digit, which is the `bool(int(...))` the view takes |
| PyText.ParseShowRoundTrip | uncommondata/core/views.py:70 | `int(str(n)) == n` for every integer `n` |
| PyText.ParseIgnoresPadding | uncommondata/core/views.py:70 | `int()` sees only the text left after trimming the characters of `IntWhitespace` |
| PyText.ParseRejectsSeparatorPadding | uncommondata/core/views.py:70 | "\x1c1" strips to "1" but `int()` refuses it, so the view answers 400 for that flag |
| PyText.ParseZeroAndOne | uncommondata/core/views.py:54-70 | the default "0" parses to 0 and "1" to 1 |
| PyText.ParsePaddedTwo | uncommondata/core/views.py:70 | " 2 " parses to 2: any integer is accepted, not just 0 and 1 |
| PyText.ParseRejectsNonNumbers | uncommondata/core/views.py:70 | "yes" and "" raise the `ValueError` the view turns into a 400 |
| Accounts.EmailQuery | uncommondata/core/views.py:61 | the duplicate-email query holds exactly when the address, compared character for character, is in the email column |
| Accounts.UsernameQuery | uncommondata/core/views.py:65 | the duplicate-username query holds exactly when the name, compared character for character, is in the username column |
| Accounts.EmptyStoreValid | uncommondata/core/models.py:11-21 | the empty database is consistent |
| Accounts.EveryUserHasOneProfile | uncommondata/core/models.py:11 | in a consistent store every user has exactly one profile, and `user.profile` finds it |
| Accounts.OnUserSaved | uncommondata/core/models.py:18-21 | the receiver adds exactly one non-curator profile for a created user and leaves every other user's profile alone; on a later save it changes nothing |
| Accounts.CreateUser | uncommondata/core/views.py:73-77 | `create_user` refuses exactly an empty or taken username; otherwise it adds one user under the next key with the normalised email, keeps the store consistent, and the user gets a non-curator profile |
| Accounts.InsertedUserValid | uncommondata/core/models.py:11-21 | a fresh user plus the profile the receiver creates keeps every store invariant |
| Accounts.SaveUser | uncommondata/core/models.py:18-21 | re-saving an existing user replaces its row, is refused exactly on a username clash, and creates no profile |
| Accounts.SetCurator | uncommondata/core/views.py:80-81 | setting the flag changes that user's profile only, and the store stays consistent |
| Accounts.SetFlagKeepsCounts | uncommondata/core/views.py:80-81 | setting a flag neither adds nor removes profiles, and only the target's profile changes |
| Accounts.DeleteUser | uncommondata/core/models.py:11 | deleting a user removes its row and (cascade) its profile, keeps every other user's profile, and keeps the store consistent |
| Accounts.DropProfilesCounts | uncommondata/core/models.py:11 | the cascade removes every profile of the deleted user and none of anyone else's |
| Accounts.NormalizeEmail | uncommondata/core/views.py:73-77 | where the stripped address has an `@`, the stored email is that stripped address with the part before its last `@` kept and every character after it lower-cased; without an `@` the address is kept exactly as given, unstripped |
| Accounts.NoAtKeptAsGiven | uncommondata/core/views.py:73-77 | an address with no `@` anywhere is stored as given |
| Accounts.NormalizeEmailIdempotent | uncommondata/core/views.py:73-77 | normalising an email twice changes nothing more |
| Accounts.ProfileLabel | uncommondata/core/models.py:14-15 | a profile's label starts with its username |
| Accounts.LabelRoundTrip | uncommondata/core/models.py:15 | the label reads back as exactly the username and role it was made from |
| Accounts.LabelInjective | uncommondata/core/models.py:15 | two profiles have the same label only if they have the same username and role |
| Registration.Validate | uncommondata/core/views.py:51-70 | the decision table of the checks in order (missing field, taken email, taken username, unparsable flag), each refusal carrying the cleaned value it names, and an accepted form carrying the cleaned fields and the nonzero-flag test |
| Registration.Respond | uncommondata/core/views.py:68-95 | a refusal is a 400 with its message and the same store; an accepted form yields 201 "success" and exactly one new account whose profile has the parsed flag |
| Registration.Register | uncommondata/core/views.py:44-97 | the response is 400 or 201 "success"; it is 400 exactly when some check fails, and then the store is unchanged; each message follows the precedence; on 201 exactly one account is added and the store stays consistent |
| Registration.RegisterIntended | uncommondata/core/views.py:60-62 | the contract of `Registration.Register`, every clause, with the duplicate-email query made on the normalised address |
| Registration.Answers | uncommondata/core/views.py:57-95 | for any email lookup key: 400 exactly when a check fails, with the store unchanged and the message of the first failing check; otherwise 201 "success" with one account added |
| Registration.MissingFlagMeansHarvester | uncommondata/core/views.py:54 | a form without `is_curator` registers a non-curator |
| Registration.CallerOf | uncommondata/core/decorators.py:25-30 | a guard sees a signed-in caller exactly for a session naming an existing user, with that user's profile flag |
| Registration.NewAccountMeetsCuratorGuard | uncommondata/core/views.py:79-81 | signed in as the new account, the curator guard passes exactly when the form's flag was nonzero, and otherwise answers 403 |
| Registration.EmailRefusal | uncommondata/core/views.py:61-62 | a complete form whose email is already stored is refused with "email ... already in use" and the store is unchanged |
| Registration.RetryWithSameEmailFails | uncommondata/core/views.py:61-62 | after a registration whose email was stored unchanged, another form with that email is refused and changes nothing |
| Registration.IntendedRetryFails | uncommondata/core/views.py:61-62 | with the corrected lookup, any later form whose email normalises to a registered one is refused |
| Registration.IntendedKeepsEmailsUnique | uncommondata/core/views.py:61-77 | the corrected registration keeps stored emails unique and normalised |
| Registration.IntendedAgreesOnNormalForm | uncommondata/core/views.py:61-62 | where the stripped email is already normalised, the corrected and the as-written registration agree |
| Registration.AsWrittenAdmitsDuplicateEmail | uncommondata/core/views.py:61-77 | as written, "bob@Example.com" registered under two usernames yields two accounts with the same stored email |

## Left out

- `index`, `get_current_time` and `new_user_form` (`uncommondata/core/views.py:11-42`) are left out: template rendering and a wall-clock read.
- The method gate of `require_http_methods`/`require_GET` (405) is left out: Django library behaviour.
- `authenticate` and `login` after a registration (`uncommondata/core/views.py:83-90`) are left out: session plumbing. `Registration.CallerOf` states what a guard sees once such a session exists.
- Password hashing is left out: the password is kept as the opaque value it was given.
- The catch-all `except Exception` (`uncommondata/core/views.py:96-97`) is left out: it covers database and library failures outside the model. In the model, `create_user`'s own unique-username refusal cannot be reached from `Registration.Respond`, because the view checks the username first. In the source it can be reached in two ways: through a username that collides only after Unicode normalisation, or through two registrations that race between `uncommondata/core/views.py:65` and `:73`.
- Requests are modelled one at a time: `Registration.Register` is a single atomic store transition, with no interleaving of concurrent registrations.
- Registration.CallerOf: under `Accounts.Valid` every existing user has a profile. So the model cannot represent a signed-in user without one. For such a user, `uncommondata/core/decorators.py:30` raises `RelatedObjectDoesNotExist` instead of answering 401 or 403. That arises only for users created outside `post_save`, such as rows loaded directly into the database.
- `save_user_profile` (`uncommondata/core/models.py:23-25`) is left out: it re-saves a profile without changing it.
- `Accounts.SaveUser` models only the update path of `save()`: inserts go through `Accounts.CreateUser`.
- PyText.ParseInt: accepts only ASCII decimal digits. Python's `int()` also accepts other Unicode decimal digits, and the model refuses those.
- PyText.ParseInt: does not model the default limit on digits in `int()` (4300 digits, from CPython 3.11 and 3.10.7). Such an interpreter refuses a longer flag with "is_curator must be 0 or 1", while the model accepts it. The limit depends on the interpreter version and its settings.
- PyText.LowerChar: lower-cases ASCII letters only. Python's `str.lower()` maps other Unicode letters too.
- Accounts.CreateUser: does not apply Django's NFKC normalisation of usernames. A username is stored as the view cleaned it.
- Uniqueness checks are modelled as exact, case-sensitive comparisons, as the default `exact` lookup is on SQLite and PostgreSQL. A case-insensitive database collation would change the finding below.
- `uncommondata/core/urls.py` (routing), `uncommondata/core/admin.py` (admin registration) and `create_test_uploads.py` (seeding with randomness and file storage) are left out. The upload, dump and knock-knock handlers that `urls.py` names have no source here and are not part of this model.
- The two live-server test scripts are not modelled. `uncommondata/test_api_auth.py:14,20` asserts the 401 answers that the guard lemmas state. `uncommondata/test_curator_access.py` asserts nothing.

## Findings

| source | as written | input that shows it | evidently intended | confidence | as-written member | corrected member |
|---|---|---|---|---|---|---|
| uncommondata/core/views.py:61-77 | the duplicate-email query uses the stripped address as typed, but `create_user` stores the address with its domain lower-cased, so the query misses a stored address that differs only in the domain's letter case | register email "bob@Example.com" as "bob", then the same email as "robert": both get 201, and two accounts store "bob@example.com" | emails are unique: look up the address in the form it is stored in | medium, not executed (assumes case-sensitive exact lookups) | Registration.AsWrittenAdmitsDuplicateEmail | Registration.IntendedKeepsEmailsUnique |
