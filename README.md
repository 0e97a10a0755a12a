# Account and confirmation-code state machine

A Dafny model of the account core of a Django REST backend: the users table,
the confirmations table (one-time codes that activate an account or reset its
password) and the token table, the managers that create their rows, and the
request handlers of `modules/api/v1/serializers.py` that read and change them.

Registration inserts a user and then one confirmation row; when the second
insert fails, the user inserted first stays. Every other handler either fails
and leaves the tables unchanged, or succeeds with the change it exists for:
reverification and the restore request insert a confirmation row,
verification activates a user and deletes the row, the restore step replaces
a password credential and deletes the row, the password change replaces a
credential, and login may add a token. The model states the tables after
each outcome.

Files, one module each:

- `wrappers.dfy`: `Option` and `Result`.
- `models.dfy`: the user and confirmation rows, the confirmation constants
  (6 digits, 7 days, at most 32 characters) and the schema's uniqueness constraints.
- `exceptions.dfy`: the four API error classes, their status codes and
  default details, and the constructor that writes into the class-level dict.
- `managers.dfy`: `UserManager` and `ConfirmationManager` as classes over
  their tables, with the pure functions that specify them (email
  normalization, code drawing, the `active` and `for_user` filters, lookup by
  code, deletion).
- `tokens.dfy`: the token table and its `get_or_create`.
- `transitions.dfy`: each handler as a function from the tables before a
  request to its outcome and the tables after it, and the lemmas about them.
- `serializers.dfy`: the handlers written step by step over the managers.
  Each is proved equal to its function in `transitions.dfy`, and each keeps
  the tables' invariant.

Modelling choices:

- The serializers import `Verification` and `models.py` defines
  `Confirmation`. They are the same table here.
- Users are keyed by email, and a confirmation names its owner by email.
- Passwords are an abstract credential. It accepts exactly the plaintext it
  was made from.
- The random choices of `get_random_string` come from an oracle given as a
  parameter: `attempts[k]` holds the picks of the k-th pass of the retry
  loop. A loop that uses up the oracle gives up with `OutOfDraws`.
- New token keys come from the caller, who must supply a key no token holds yet.
- The clock is an integer count of seconds passed in as `now`.
- `normalize_email` is the framework's rule written out. When the stripped
  address contains an `@`, the result is the stripped address with the part
  after its last `@` lower-cased. An address with no `@` is returned exactly
  as given, unstripped. Only ASCII whitespace and letters are handled.
- Registration stores the normalized address, but reverification, the
  restore request and login look the address up exactly as typed. The model
  compares emails exactly, as a database with a case-sensitive email column
  does (SQLite and PostgreSQL by default); a case-insensitive collation, such
  as MySQL's default, would find the row. On a case-sensitive database, an
  address with a capital in its domain is therefore not found by those
  handlers right after it was registered (`Transitions.RegisteredAddressNotFoundAsTyped`;
  `Transitions.CapitalDomainIsLowered` describes such addresses).
- Code uniqueness: `generate_code` only avoids the codes of the same user,
  while the code column is unique across the whole table. A code held by
  another user's row therefore makes the insert fail with `IntegrityError`.
  The model does not assume codes are globally unique before the insert.
- Three properties of the code, kept as written:
  - No handler reads a row's expiry: an expired code still verifies
    (`Transitions.VerifyIgnoresExpiry`).
  - A code collision with another user's row is an `IntegrityError` raised by
    the insert, which no handler catches (`Managers.ConfirmationCreateOutcome`).
  - A registration whose confirmation insert fails keeps the user it has
    already inserted, as nothing wraps the two inserts in a transaction
    (`Transitions.RegisterFailureAddsNoRow`).

## Model

| member | source | states |
|---|---|---|
| `Models.SetPassword` | modules/users/managers.py:14 | the stored credential accepts one plaintext only: the one it was set from |
| `Models.GetShortName` | modules/users/models.py:33-34 | the short name is the stored first name; the full name starts with it |
| `Models.HasPerm` | modules/users/models.py:42-43 | with `Models.PermissionsAreStaffFlag`: the answer is the staff flag, whatever permission is asked for |
| `Models.HasModulePerms` | modules/users/models.py:39-40 | with `Models.PermissionsAreStaffFlag`: the answer is the staff flag, whatever application label is asked for |
| `Models.GetFullName` | modules/users/models.py:36-37 | the full name splits into the short name, one space and the surname |
| `Models.PermissionsAreStaffFlag` | modules/users/models.py:39-43 | both permission checks equal the staff flag; a superuser who is not staff has no permission |
| `Models.CodesUniqueGivesPairsUnique` | modules/users/models.py:55-61 | a unique code column implies that (user, code) pairs are unique |
| `Models.DefaultCodeShape` | modules/users/models.py:50-55 | default codes have 6 characters, fit the 32-character column and use the ten decimal digits; the lifetime is 604800 seconds |
| `Exceptions.StatusCode` | modules/api/v1/exceptions.py:28-61 | every error class answers with a 4xx status: 400, 409, 403 and 404 |
| `Exceptions.KindOfStatus` | modules/api/v1/exceptions.py:28-61 | gives back the error class that answers with a status, and nothing for any other status |
| `Exceptions.StatusCodesDistinct` | modules/api/v1/exceptions.py:28-61 | 400, 409, 403 and 404 belong to one class each, and a status maps back to its class |
| `Exceptions.DefaultDetail` | modules/api/v1/exceptions.py:29-65 | each default detail holds exactly `status` = `'error'` and the class's own message |
| `Exceptions.Initialized` | modules/api/v1/exceptions.py:15-21 | only a truthy message overwrites `details` and only a truthy code adds `code`; other entries stay; a detail with only the three keys and an error status keeps that shape |
| `Exceptions.DetailedAPIException.constructor` | modules/api/v1/exceptions.py:15-21 | the instance's detail is the class's shared default dict itself, updated in place |
| `Exceptions.RaiseTwice` | modules/api/v1/exceptions.py:17-21 | two errors raised one after the other share one dict; the second reports the first one's message instead of the default |
| `Exceptions.SharedDetailLeaks` | modules/api/v1/exceptions.py:17-21 | once a message and code have been written into the shared dict, a later error raised without them still reports both |
| `Exceptions.FreshDetail` | modules/api/v1/exceptions.py:15-21 | corrected detail: well formed, with this error's message or the class default, and a code key exactly when a code is given |
| `Exceptions.CorrectedAPIException.constructor` | modules/api/v1/exceptions.py:15-21 | corrected error: a new dict per instance, and the class default is never written |
| `Exceptions.RaiseTwiceCorrected` | modules/api/v1/exceptions.py:17-21 | with the correction, an error raised without a message reports the class default and no code |
| `Managers.NormalizeEmail` | modules/users/managers.py:13 | with `Managers.NormalizeEmailShape`: the address as given when its stripped form has no `@`; otherwise the stripped address with its local part and last `@` kept and its domain lower-cased |
| `Managers.StripLeftRemovesSpace` | modules/users/managers.py:13 | the left strip removes only whitespace: every character before its result is whitespace |
| `Managers.StripRightRemovesSpace` | modules/users/managers.py:13 | the right strip removes only whitespace: every character after its result is whitespace |
| `Managers.NormalizeEmailShape` | modules/users/managers.py:13 | an address without `@` is kept; otherwise the result has the stripped length, the same local part, the same last `@`, and no capital after it |
| `Managers.NormalizeEmailIdempotent` | modules/users/managers.py:13 | normalizing an address a second time changes nothing |
| `Managers.NewUser` | modules/users/managers.py:12-14 | a new user gets the normalized email and a credential for the given password; a flag is true only when passed as true, so a new user is inactive, non-staff and non-superuser by default |
| `Managers.UserCreate` | modules/users/managers.py:12-16 | creation succeeds exactly when the normalized email is not stored yet, and otherwise fails with an integrity error |
| `Managers.UserCreateAddsOne` | modules/users/managers.py:12-16 | a successful create adds exactly one user, under its email, who accepts the password; no other user changes |
| `Managers.SuperuserFields` | modules/users/managers.py:21-24 | superuser creation sets staff, superuser and active to true; passing any of the three again is a duplicated keyword |
| `Managers.UserManager.Get` | modules/api/v1/serializers.py:93 | the lookup by exact email finds a user exactly when that key is stored |
| `Managers.UserManager.Save` | modules/users/managers.py:15 | saving writes the instance under its email and changes no other user; the table stays keyed by email |
| `Managers.UserManager.Create` | modules/users/managers.py:12-16 | the table gains the created user, or is unchanged when the insert fails |
| `Managers.UserManager.CreateUser` | modules/users/managers.py:18-19 | behaves as create |
| `Managers.UserManager.CreateSuperuser` | modules/users/managers.py:21-24 | a duplicated flag keyword fails with TypeError; otherwise the result is create's with the three flags set, so the email is normalized and the names are those given; a created superuser is staff, superuser and active, has permissions and accepts the password; on failure the table is unchanged |
| `Managers.EffectiveLength` | modules/users/managers.py:46 | `length or CODE_LENGTH`: a given non-zero length is kept, a missing or zero one becomes 6 |
| `Managers.EffectiveLetters` | modules/users/managers.py:47 | `letters or CODE_LETTERS`: a given non-empty alphabet is kept, a missing or empty one becomes the ten digits |
| `Managers.CodeTakenBy` | modules/users/managers.py:50 | the loop's test: some row of that same user holds the code; rows of other users do not count |
| `Managers.RandomString` | modules/users/managers.py:51-53 | a draw has the requested length (none for a negative one) and uses only the alphabet |
| `Managers.FirstFreeCode` | modules/users/managers.py:42-55 | the code chosen is non-empty, of the requested length, uses only the alphabet and is held by no row of the same user; it is the first draw the loop accepts, and no code means no draw was acceptable |
| `Managers.ConfirmationManager.GenerateCode` | modules/users/managers.py:42-55 | the retry loop keeps redrawing until the code is acceptable; it returns exactly the first acceptable draw, with a missing or zero length and a missing or empty alphabet replaced by the defaults; it reads the table and changes nothing |
| `Managers.ConfirmationCreate` | modules/users/managers.py:31-40 | a created row belongs to the user, expires `now + LIFETIME`, has 6 digits, clashes with no row and keeps the table's constraints |
| `Managers.ConfirmationCreateOutcome` | modules/users/managers.py:31-40 | the outcome follows the code the loop settles on: a row with that code exactly when no row holds it; an integrity error exactly when some row, always another user's, holds it; out of draws exactly when no draw was accepted |
| `Managers.ConfirmationManager.Create` | modules/users/managers.py:31-40 | the table gains exactly the created row at its end, or is unchanged on failure; its constraints still hold |
| `Managers.ActiveAt` | modules/users/managers.py:57-59 | keeps exactly the rows whose expiry is strictly later than now |
| `Managers.ActiveAtCounts` | modules/users/managers.py:57-59 | every live row appears as often as in the table, and no expired row appears |
| `Managers.ConfirmationManager.Active` | modules/users/managers.py:57-59 | returns exactly the rows of the table whose expiry is strictly later than now |
| `Managers.OwnedBy` | modules/users/managers.py:61-63 | keeps exactly the rows that belong to the user |
| `Managers.OwnedByCounts` | modules/users/managers.py:61-63 | every row of the user appears as often as in the table, and no other row appears |
| `Managers.ConfirmationManager.ForUser` | modules/users/managers.py:61-63 | returns exactly the rows of the table that belong to the user |
| `Managers.FindByCode` | modules/api/v1/serializers.py:64 | finds a row holding the code, or reports that no row holds it |
| `Managers.FindByCodeUnique` | modules/users/models.py:55 | with unique codes, the lookup finds the one row that holds the code |
| `Managers.ConfirmationManager.GetByCode` | modules/api/v1/serializers.py:64-66 | finds a row of the table holding the code, or reports that none does |
| `Managers.RemoveRecord` | modules/api/v1/serializers.py:73 | deletion removes the deleted record and keeps every other row |
| `Managers.RemoveUniqueRecord` | modules/api/v1/serializers.py:73 | deleting a row whose code is unique removes exactly that position and keeps the order of the rest |
| `Managers.ConfirmationManager.Delete` | modules/api/v1/serializers.py:73 | the table loses exactly the deleted record and keeps its constraints |
| `Tokens.KeyFor` | modules/api/v1/serializers.py:219 | the existing key when the user has a token, else the new key |
| `Tokens.GetOrCreateTable` | modules/api/v1/serializers.py:219 | get-or-create leaves the table alone for a user with a token, adds one entry otherwise, keeps keys unique, and a repeat gives the same key |
| `Tokens.TokenManager.GetOrCreate` | modules/api/v1/serializers.py:219 | creates a token only when the user has none; the returned key is the stored one |
| `Transitions.ErrorBody` | modules/api/v1/serializers.py:66 | a handler's error body carries its own message in a well-formed detail |
| `Transitions.Register` | modules/api/v1/serializers.py:26-34 | registration keeps the tables' invariant and never touches tokens |
| `Transitions.RegisterOutcome` | modules/api/v1/serializers.py:26-34 | registration succeeds exactly when the normalized email is new and the confirmation insert for it succeeds; a duplicate fails with an integrity error and any other failure is the insert's; a success appends exactly the created row |
| `Transitions.RegisterEffects` | modules/api/v1/serializers.py:26-34 | a registration adds exactly one new user (inactive, unprivileged, with the names given and accepting the password) and exactly one row, and that row is the user's only one |
| `Transitions.RegisterFailureAddsNoRow` | modules/api/v1/serializers.py:31-32 | a failed registration adds no row and no token; a duplicate email changes nothing; for a new email the users table keeps the user the first insert stored |
| `Transitions.Verify` | modules/api/v1/serializers.py:63-75 | verification keeps the invariant and changes nothing when it fails |
| `Transitions.UnknownCodeNotFound` | modules/api/v1/serializers.py:63-66 | a code no row holds makes verification and password restore fail with NotFound and change nothing |
| `Transitions.CodesNeverMismatch` | modules/api/v1/serializers.py:64-69 | the "codes don't match" Conflict is never raised; the code handlers only fail with NotFound |
| `Transitions.VerifyConsumesCode` | modules/api/v1/serializers.py:63-73 | verifying an existing code activates exactly its owner, deletes exactly that row and keeps the others in order; a second verification with the code fails with NotFound and changes nothing |
| `Transitions.VerifyIgnoresExpiry` | modules/api/v1/serializers.py:63-73 | an expired row, which the active filter excludes, still verifies |
| `Transitions.RestoreChange` | modules/api/v1/serializers.py:144-156 | restoring a password keeps the invariant and changes nothing when it fails |
| `Transitions.RestoreChangeConsumesCode` | modules/api/v1/serializers.py:144-154 | restoring with an existing code makes the owner accept exactly the new password and deletes exactly that row; reusing the code fails with NotFound |
| `Transitions.IssueCode` | modules/api/v1/serializers.py:92-98 | reverification and the restore request succeed exactly when the email is stored and the confirmation insert succeeds; an unknown email is NotFound, any other failure is the insert's; a success appends exactly the created row; the invariant is kept, users and tokens are never touched and a failure changes nothing |
| `Transitions.IssueCodeEffects` | modules/api/v1/serializers.py:117-123 | an unknown email fails with NotFound and changes nothing; a success adds exactly one row, for that user, expiring `now + LIFETIME` |
| `Transitions.ChangePassword` | modules/api/v1/serializers.py:172-189 | a wrong current password fails with Conflict and changes nothing; a correct one replaces only that user's credential |
| `Transitions.Authenticate` | modules/api/v1/serializers.py:203-220 | authentication never touches users or confirmations, keeps the invariant and changes nothing on failure; a success stores the returned key for that user and changes no other token |
| `Transitions.InactiveLoginResponse` | modules/api/v1/serializers.py:216-217 | a login with the right password on an inactive account answers status 403 with an error body whose message is "User not active" |
| `Transitions.AuthenticateOutcomes` | modules/api/v1/serializers.py:209-220 | NotFound for an unknown email and for a wrong password; Forbidden for an inactive user with the right password; otherwise a token: the stored one with nothing changed, or the new key added for that user alone; a repeated login returns the same token and changes nothing |
| `Transitions.NewPasswordAuthenticates` | modules/api/v1/serializers.py:181-189 | after a password change, the new password passes the login check and a different old one fails it |
| `Transitions.RegisterVerifyLogin` | modules/api/v1/serializers.py:26-73 | register, then log in: Forbidden; verify the code issued: success; verify it again: NotFound; log in again: a token |
| `Transitions.RegisteredAddressNotFoundAsTyped` | modules/api/v1/serializers.py:93 | after registering an address that normalization changes, the exact lookups of reverification and login answer NotFound for the address as typed |
| `Transitions.CapitalDomainIsLowered` | modules/users/managers.py:13 | such addresses exist: an address without surrounding whitespace and with a capital letter after its only '@' is stored with that part lower-cased, which differs from the address as typed |
| `Transitions.JoinedNormalized` | modules/users/managers.py:13 | an address without surrounding whitespace, joined at an '@' its domain does not contain, normalizes to the same local part, that '@' and the lower-cased domain |
| `Serializers.Registration` | modules/api/v1/serializers.py:26-34 | create the user, then its confirmation; the tables end as the registration function says |
| `Serializers.Verification` | modules/api/v1/serializers.py:57-75 | look up, activate, save, delete; the tables end as the verification function says |
| `Serializers.Reverification` | modules/api/v1/serializers.py:86-100 | look up by email, then create a confirmation; the tables end as the code-issuing function says |
| `Serializers.RestorePasswordRequest` | modules/api/v1/serializers.py:111-125 | look up by email, then create a confirmation; the tables end as the code-issuing function says |
| `Serializers.RestorePassword` | modules/api/v1/serializers.py:138-156 | look up, set the password, save, delete; the tables end as the restore function says |
| `Serializers.ChangeUserPassword` | modules/api/v1/serializers.py:172-189 | check the current password, then set and save the new one; the tables end as the change-password function says |
| `Serializers.Authentication` | modules/api/v1/serializers.py:203-220 | look up, check the password, check the active flag, get or create the token; the tables end as the authentication function says |

## Left out

- The email sending of `modules/users/tasks.py` is I/O. Rows are created without it.
- Password hashing and salting are abstract. Hash collisions are not modelled.
- Randomness and termination: the random choices of `get_random_string` come
  from an oracle, and the retry loop is bounded by the oracle's length.
  `Managers.FirstFreeCode` and `Managers.ConfirmationManager.GenerateCode` are
  bounded this way, so they cannot express a loop that never ends (for example
  for a negative length, where every draw is empty).
- Token key generation is not modelled. The key is a parameter that must not be in use yet.
- `Managers.NormalizeEmail` handles only ASCII whitespace and ASCII letters.
  Python's Unicode case mapping and whitespace are not modelled.
- The framework's field validation runs before the handlers and is not
  modelled: missing fields and malformed emails (400), and the unique-email
  validator that answers a duplicate registration with 400.
  `Transitions.Register` therefore lets a duplicate email reach the insert,
  which fails with an integrity error.
- Database transactions, request atomicity and the race between two
  concurrent verifications of one code are concurrency. The model is sequential.
- HTTP dispatch is not modelled (views, URL routing, token authentication,
  push-notification devices), and neither are translations.
- The profile endpoints, the user serializer and the admin forms are outside
  this core.
- `User.__unicode__` and the name field length limits are not modelled.
- A dangling confirmation owner cannot occur: the tables' invariant requires
  every row's owner to exist. The model therefore has no error path for a
  missing owner.

## Findings

| source | as written | input that shows it | evidently intended | confidence | as-written member | corrected member |
|---|---|---|---|---|---|---|
| modules/api/v1/exceptions.py:17-21 | `self.detail` is the class-level `default_detail` dict. Each construction writes its message and code into that shared dict, and the writes stay for every later error of the class. | Log in as an inactive user with the right password: the handler raises ForbiddenRequestError with "User not active". Then send a request with a bad token: `modules/api/v1/authentication.py:16` raises ForbiddenRequestError with no message, and its body says "User not active" instead of "API key not provided or incorrect". | Each error gets a fresh detail: the class default plus its own message and code | high (not executed) | `Exceptions.RaiseTwice` | `Exceptions.CorrectedAPIException.constructor` |
