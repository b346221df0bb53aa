# Online-Cinema accounts: a Dafny model of the account lifecycle

This project models the account core of the Online-Cinema backend: the `UserService` flows
(registration, login, activation, refresh, password-reset request and password reset), the
`UserRepository` that stores users, user groups and the three token tables, and the two input
validators for passwords and emails.

Modules:

- `Common`: `Option` and `Result`.
- `Validators`: `validate_password_strength` and `validate_email` as pure functions over
  strings, with the character classes of their patterns spelled out.
- `Accounts`: the store as a value (`Db`): users, groups and the activation, refresh and
  reset token tables as sequences in storage order, one primary-key counter. Each lookup is
  the first matching row (`.scalars().first()`). Each write is a pure function. The schema
  invariant `Valid` and the one-token-per-user discipline `Disciplined` are defined here,
  with lemmas saying what every write does to them.
- `UserRepo`: class `UserRepository`. Its fields are the tables, reassigned by its methods.
  Each method promises the whole new store as an `Accounts` write applied to the old one.
- `Flows`: each flow as a function from the store before to the store after plus the
  outcome (`Step`).
- `UserServices`: class `UserService`. It runs each flow step by step against a
  `UserRepository` and promises exactly the store and outcome of the flow function. Each
  method that writes also keeps the store `Consistent`, meaning valid and disciplined.
- `Lifecycle`: the invariant `Consistent` and lemmas about the flows. They cover error order and uniformity, which rows each
  branch deletes, replays of activation and reset tokens, the one reset token after a reset
  request, and preservation of `Valid` and `Disciplined` by every flow. Two whole lifecycles
  are included: register, activate, log in; and request a reset, then reset.

The service's collaborators are inputs. The clock is an integer `now`. Random token strings
and their expiry instants are arguments. The JWT manager and the email sender are values
holding functions. The password hash is a function `hash` held by the repository, and
verifying a password means `hash(raw) == stored digest`.

Behaviour of the code worth noting:

- A token whose `expires_at` equals `now` is still accepted, because both flows test
  `expires_at < now` (`src/services/user_service.py:69`, `:124`).
- Activating an already active account raises without deleting the token
  (`src/services/user_service.py:75-77`).
- A second activation with the same token fails as "Invalid or expired activation token.",
  not "User account is already active.", because the first success deleted the token.
- An error raised by the email sender is not caught (`src/services/user_service.py:38-42`,
  `:106-107`). In the model every write takes effect at once, so the flow returns that error
  with its writes already applied. For a reset request this matches the source: the deletion
  of the old reset rows and the new row are committed before the sender runs
  (`src/repositories/user_rep.py:87-97`). So is a USER group created during registration
  (`src/repositories/user_rep.py:33`). Registration's new user and its activation row are
  only flushed or added to the session (`src/repositories/user_rep.py:43-44`, `:53`);
  whether those two rows persist depends on how the caller's session ends, which is outside
  the modelled files.

## Model

| member | source | states |
|---|---|---|
| Validators.Search | src/database/validators/users.py:7-13 | `re.search` for one character class is true exactly when some character of the password is in that class |
| Validators.ValidatePasswordStrength | src/database/validators/users.py:4-16 | no error exactly when length >= 8 and there is an upper-case letter, a lower-case letter, a digit and one of `@$!%*?&#`; otherwise the error is the first failing check in the order length, upper, lower, digit, special |
| Validators.Span | src/database/validators/users.py:20 | a greedy `[...]+` run: every character before the returned length is in the class, and the next one is not |
| Validators.FullMatch | src/database/validators/users.py:20 | the greedy scan accepts exactly the strings `L@D.R` with L over `[a-zA-Z0-9_.+-]`, D over `[a-zA-Z0-9-]` and R over `[a-zA-Z0-9-.]`, all non-empty |
| Validators.ValidateEmail | src/database/validators/users.py:19-22 | accepted exactly when the email has the `L@D.R` shape, or has it followed by one final newline, since Python's `$` also matches there |
| Validators.PasswordMessageIdentifiesCheck | src/database/validators/users.py:5-16 | the five checks raise five different messages, so the message names the check that failed |
| Validators.ShapeHasOneAt | src/database/validators/users.py:20 | a string of the shape holds no '@' except the one between L and D |
| Validators.AcceptedEmailHasOneAt | src/database/validators/users.py:19-22 | every accepted email contains exactly one '@' |
| Validators.TrailingNewlineAccepted | src/database/validators/users.py:20-21 | "a@b.c\n" is accepted although it is not a full match of the pattern |
| Validators.FullMatchHasNoNewline | src/database/validators/users.py:20 | a full match of the pattern contains no newline |
| Accounts.UserByEmail | src/repositories/user_rep.py:15-18 | `get_user_by_email` returns a user with exactly that email, and returns none only when no user has it |
| Accounts.UserById | src/repositories/user_rep.py:20-23 | `get_user_by_id` returns a user with that id, and none only when no user has it |
| Accounts.GroupByName | src/repositories/user_rep.py:25-28 | `get_user_group` returns a group with that name, and none only when no group has it |
| Accounts.ActivationByEmailAndToken | src/repositories/user_rep.py:56-67 | `get_activation_token` returns a row only if its token matches and its owner, joined on `user_id`, has that email; none only when no row qualifies |
| Accounts.TokenByValue | src/repositories/user_rep.py:82-85 | `get_refresh_token` returns a row whose token equals the argument, and none only when no row does |
| Accounts.TokenOfUser | src/repositories/user_rep.py:100-103 | `get_password_reset_token` returns a row owned by that user, and none only when the user owns none |
| Accounts.InsertUser | src/repositories/user_rep.py:37-45 | `create_user` fails exactly when the email is taken, because of the unique index; otherwise the new user has the given email, digest and `group_id`, is inactive, takes the next key, and a lookup by its email finds it; only the users table (one row appended) and the counter change |
| Accounts.SetActive | src/repositories/user_rep.py:47-49 | `activate_user` changes only `is_active`, sets it on the user with that id, and leaves every other row and table as it was |
| Accounts.SetPassword | src/repositories/user_rep.py:105-107 | `update_user_password` changes only the digest of the user with that id; every other row and table stays |
| Accounts.DeleteRow | src/repositories/user_rep.py:69-71 | after `delete_token`, a row is in the table exactly when it was there before and has a different primary key |
| Accounts.DeleteRowExact | src/repositories/user_rep.py:69-71 | on a table with unique keys, `delete_token` removes exactly the given row; users, groups, the counter and the other tables are unchanged |
| Accounts.DeleteResetTokensOf | src/repositories/user_rep.py:87-92 | `delete_password_reset_tokens(uid)` keeps exactly the reset rows of other users; users, groups, the activation and refresh tables and the counter are unchanged |
| Accounts.InsertGroupKeeps | src/repositories/user_rep.py:25-35 | after `create_user_group(name)`, `get_user_group(name)` finds a group with that name; the invariants hold |
| Accounts.InsertUserKeeps | src/repositories/user_rep.py:37-45 | a new user on a free email keeps the store valid, is appended under the next key, and advances the counter |
| Accounts.InsertTokenKeeps | src/repositories/user_rep.py:51-54 | a new token row gets the next key, is appended to its table only, and keeps the store valid |
| Accounts.DeleteRowKeeps | src/repositories/user_rep.py:69-71 | deleting a token row keeps the store valid and the one-token-per-user discipline |
| Accounts.DeleteResetTokensOfKeeps | src/repositories/user_rep.py:87-92 | deleting a user's reset rows keeps the store valid and disciplined |
| Accounts.SetActiveKeeps | src/repositories/user_rep.py:47-49 | activating a user keeps the store valid and disciplined |
| Accounts.SetPasswordKeeps | src/repositories/user_rep.py:105-107 | a password update keeps the store valid and disciplined |
| Accounts.SetPasswordFound | src/repositories/user_rep.py:105-107 | after a password update, a lookup by the user's email finds the user with the new digest |
| Accounts.UpdatedUserFound | src/repositories/user_rep.py:47-49 | after an update that keeps id and email, a lookup by email finds the updated user |
| UserRepo.UserRepository.CreateUserGroup | src/repositories/user_rep.py:30-35 | appends a group under the next key; `get_user_group(name)` then finds a group with that name |
| UserRepo.UserRepository.CreateUser | src/repositories/user_rep.py:37-45 | the store and the result are those of `InsertUser` with the digest of the raw password; a taken email changes nothing |
| UserRepo.UserRepository.ActivateUser | src/repositories/user_rep.py:47-49 | the new store is `SetActive` of the old one |
| UserRepo.UserRepository.CreateActivationToken | src/repositories/user_rep.py:51-54 | appends one activation row for the user under the next key |
| UserRepo.UserRepository.DeleteToken | src/repositories/user_rep.py:69-71 | the new store is `DeleteRow` of the old one |
| UserRepo.UserRepository.CreateRefreshToken | src/repositories/user_rep.py:73-80 | appends one refresh row with the user and token given, expiring `days_valid` days after `now`, 30 by default |
| UserRepo.UserRepository.DeletePasswordResetTokens | src/repositories/user_rep.py:87-92 | the new store is `DeleteResetTokensOf` of the old one |
| UserRepo.UserRepository.CreatePasswordResetToken | src/repositories/user_rep.py:94-98 | appends one reset row for the user under the next key |
| UserRepo.UserRepository.UpdateUserPassword | src/repositories/user_rep.py:105-107 | the new store is `SetPassword` of the old one with the digest of the new password |
| UserServices.UserService.RegisterUser | src/services/user_service.py:26-44 | the repository ends in the store of `Register` on the old store, and the method returns its outcome; a consistent store stays consistent |
| UserServices.UserService.LoginUser | src/services/user_service.py:46-61 | the repository ends in the store of `Login`, and the method returns its outcome; a consistent store stays consistent |
| UserServices.UserService.ActivateAccount | src/services/user_service.py:63-80 | the repository ends in the store of `Activate`, and the method returns its outcome; a consistent store stays consistent |
| UserServices.UserService.constructor | src/services/user_service.py:15-24 | the service holds exactly the repository, JWT manager and email sender it was given |
| UserServices.UserService.RefreshToken | src/services/user_service.py:82-95 | changes nothing; returns the outcome of `Refresh`, and succeeds only when a stored refresh row holds the token string |
| UserServices.UserService.RequestPasswordReset | src/services/user_service.py:97-109 | the repository ends in the store of `RequestReset`, and the method returns its outcome; a consistent store stays consistent |
| UserServices.UserService.ResetUserPassword | src/services/user_service.py:111-129 | the repository ends in the store of `ResetPassword`, and the method returns its outcome; a consistent store stays consistent |
| Lifecycle.EmptyConsistent | src/repositories/user_rep.py:11-13 | a repository over an empty store starts valid and disciplined |
| Lifecycle.RegisterTakenEmail | src/services/user_service.py:26-29 | an email that already belongs to a user is refused with `EmailTaken`, and no table changes |
| Lifecycle.RegisterCreatesUser | src/services/user_service.py:31-44 | on a free email, registration appends one inactive user holding the password's digest. The user is in a USER group: an existing one is reused, otherwise one group is created. The result is that user with the token, or the sender's error |
| Lifecycle.RegisterIssuesActivation | src/services/user_service.py:36-44 | registration appends one activation row owned by the new user, with the given expiry; `get_activation_token(email, token)` finds it; the refresh and reset tables are untouched |
| Lifecycle.LoginBadCredentials | src/services/user_service.py:47-49 | an unknown email and a wrong password give the same error, whose message is "Invalid email or password.", and change nothing |
| Lifecycle.LoginNotActivated | src/services/user_service.py:47-52 | "User account is not activated." comes only after the password has matched |
| Lifecycle.LoginAccepts | src/services/user_service.py:46-61 | an active user whose stored digest is that of the password logs in, and gets the access and refresh tokens the JWT manager makes for their id |
| Lifecycle.LoginStoresRefreshToken | src/services/user_service.py:54-61 | a successful login appends exactly one refresh row; it belongs to the user, holds the returned refresh token and expires 30 days later; users, groups and the activation and reset tables are unchanged, and the counter advances by one |
| Lifecycle.ActivateNotFound | src/services/user_service.py:64-73 | with no row for (email, token), activation fails as invalid or expired and changes nothing |
| Lifecycle.ActivateExpired | src/services/user_service.py:66-73 | a row with `expires_at < now` makes activation fail as invalid or expired and deletes that row |
| Lifecycle.ActivateAlreadyActive | src/services/user_service.py:75-77 | for an already active owner, activation raises "User account is already active." and leaves the token row in place |
| Lifecycle.OwnerIsUserWithEmail | src/repositories/user_rep.py:56-67 | the user joined to a found activation row is the one user with that email |
| Lifecycle.ActivateSucceeds | src/services/user_service.py:79-80 | an unexpired row, including one exactly at `expires_at`, with an inactive owner: the owner becomes active and the row, and only it, is deleted |
| Lifecycle.ActivateReplayFails | src/services/user_service.py:63-80 | after a successful activation the same (email, token) fails as invalid or expired and changes nothing |
| Lifecycle.RefreshIgnoresStoredExpiry | src/services/user_service.py:82-95 | the outcome depends only on the token strings in the refresh table, never on a row's `expires_at` |
| Lifecycle.RefreshOutcome | src/services/user_service.py:82-95 | the decoder's error comes first; then "Refresh token not found." exactly when no stored row holds the token; with a stored row, "User not found." exactly when `user_id` is missing or names no user, and an access token for that id exactly when it names one |
| Lifecycle.LoginThenRefresh | src/services/user_service.py:54-95 | when the refresh token returned by a login decodes to its user, refreshing it later yields an access token for that user |
| Lifecycle.RequestResetNoUser | src/services/user_service.py:98-101 | for an absent or inactive user the result is `False` and nothing changes |
| Lifecycle.RequestResetIssuesOne | src/services/user_service.py:103-109 | afterwards the user holds exactly one reset row, with the new token; other users' reset rows are exactly as before; users, activation and refresh rows are unchanged; the result is `True` exactly when there is no sender or the sender does not raise, and otherwise the sender's error |
| Lifecycle.ResetFailsUniformly | src/services/user_service.py:111-126 | whatever the cause (absent user, inactive user, no row, mismatch, expiry) a failing reset raises the same error, whose message is "Invalid email or token." |
| Lifecycle.ResetMismatchOrExpiredDeletes | src/services/user_service.py:118-126 | on a mismatch or an expired row, that row alone is deleted and the users stay as they were |
| Lifecycle.ResetSuccessBranch | src/services/user_service.py:111-129 | success happens only for an active user whose row matches and has not expired, and its store is the password update followed by the row's deletion |
| Lifecycle.ResetSucceeds | src/services/user_service.py:128-129 | on success the user with that email holds the digest of the new password, so the new password verifies |
| Lifecycle.ResetConsumesToken | src/services/user_service.py:128-129 | on success exactly the used reset row is deleted; groups, activation and refresh rows are unchanged |
| Lifecycle.ResetReplayFails | src/services/user_service.py:111-129 | after a successful reset, any later reset for that email fails, with any token and any password |
| Lifecycle.ResetAfterMismatchFails | src/services/user_service.py:118-121 | a wrong token burns the pending reset token, so the right token fails afterwards |
| Lifecycle.RegisterPreserves | src/services/user_service.py:26-44 | registration keeps the store valid and at most one activation row per user |
| Lifecycle.LoginPreserves | src/services/user_service.py:46-61 | login keeps the store valid and disciplined |
| Lifecycle.ActivatePreserves | src/services/user_service.py:63-80 | activation keeps the store valid and disciplined |
| Lifecycle.RequestResetPreserves | src/services/user_service.py:97-109 | a reset request keeps the store valid and at most one reset row per user |
| Lifecycle.ResetPasswordPreserves | src/services/user_service.py:111-129 | a reset keeps the store valid and disciplined |
| Lifecycle.RegisterActivateLogin | src/services/user_service.py:26-80 | registering, activating with the issued token before it expires, then logging in with the same password all succeed; in the model, where every write takes effect at once, this holds even when the activation email failed |
| Lifecycle.RequestThenReset | src/services/user_service.py:97-129 | after a reset request, resetting with the issued token before it expires succeeds and the new password verifies |

## Left out

- HTTP routing, status codes and the matching on error messages in `src/routes/users.py`: transport only.
- Migrations, dependency wiring and Pydantic schemas. The unique email index is the invariant `Accounts.UniqueUsers` and the failure case of `Accounts.InsertUser`.
- Sessions: `flush`, `commit`, `rollback`, `refresh`, async scheduling and concurrent requests, such as two registrations racing on one email. Every write in the model takes effect at once.
- JWT signing and decoding: they are the functions of `JwtManager`. A missing JWT manager (`None`) is not modelled; the source would fail with an attribute error there.
- Password hashing: a deterministic function `hash` without salt; `verify_password` is `hash(raw) == digest`.
- Random token generation and the default activation and reset lifetimes: the token string and `expires_at` are arguments.
- `UserRepo.UserRepository.CreateRefreshToken`: the expiry is `now + days_valid * 86400` seconds; `RefreshTokenModel.create` is not part of this model.
- Email delivery: a sender call returns `Some(message)` when it raises. The flow then returns that error; in the model its writes are already applied.
- The clock and time zones: `now` and `expires_at` are integers on one time line.
- `UserServices.UserService.ActivateAccount`: the source sets `is_active` on the joined user object directly, and `delete_token` commits it; the model makes the same change through `ActivateUser`.
- Primary keys come from one counter shared by all tables, so keys are unique per table but the actual sequence values are not modelled.
- `Accounts.Valid`: a token row's `user_id` is only required to be below the counter, not to name an existing user. The foreign keys and their cascades are not modelled.
- `Validators.ValidatePasswordStrength`: treats only ASCII `0`-`9` as digits, while Python's `\d` also matches other Unicode decimal digits.
- The callers of the validators are outside the modelled files; the validators are modelled on their own.

## Findings

| source | as written | input that shows it | evidently intended | confidence | as-written member | corrected member |
|---|---|---|---|---|---|---|
| src/database/validators/users.py:20-21 | `re.match` with a pattern ending in `$` accepts the address with one trailing newline, because `$` also matches before a final "\n" | `"a@b.c\n"` | only the full `L@D.R` shape is accepted (`re.fullmatch`, or `\Z`) | not executed | Validators.TrailingNewlineAccepted | Validators.FullMatchHasNoNewline |
