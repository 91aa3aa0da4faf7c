# InstaVision backend: user directory, access control and helpers in Dafny

This project models the core of the InstaVision backend. That backend is an Express service: an admin registers students, and users log in with a JSON Web Token. The model covers:

- **The `users` table.** A class holding a map from id to row, plus the next value of the id sequence (`UsersController.UserTable`).
- **Its handlers.**
  - The user-management handlers are methods of the table: list, read, update, delete, toggle status, reset password.
  - The account handlers: register is a method that writes the table; login and current user are functions that read it.
- **The authentication and authorization middleware.**
- **The route tables of the two routers.** Each maps a verb and path to its middleware chain.
- **The pure helpers.** The password generator, registration numbers, `isEmpty`, `sanitize`, the response envelope and the terminal error handler.

The collaborators are parameters:

- **bcrypt** is an ideal hash. A digest remembers its salt and the password it was made from, and it verifies against that password only.
- **Token signing and verification** are functions passed in.
- **`Math.random`** is a `Draw`: the class indices, the fill indices, and a permutation that stands for the shuffle.
- **`CURRENT_TIMESTAMP`** and the year are integers passed in.
- **The outcome of sending a mail** is a boolean that the answer does not depend on.

Request bodies are records of optional strings. `None` is a field the body leaves out. JavaScript truthiness is modelled exactly, so the empty string is present but falsy.

The table keeps three invariants:

- `Valid`: every id is below the sequence value.
- `Unique`: email and registration number are each held by at most one row.
- `AdminsActive`: every admin is active.

Each handler's contract states its outcome in every case, in the order the source checks them. It states the whole new table. It also says that the handler preserves `Unique` and `AdminsActive`.

## Model

| member | source | states |
|---|---|---|
| UsersController.UserTable.constructor | migrations/migrate.js:11-16 | a freshly created table is empty, its id sequence starts at 1, and the table invariant holds |
| UsersController.UserTable.GetAllUsers | controllers/users.controller.js:57-63 | 200 "Users retrieved successfully" with an array holding every row of the table exactly once, in the order `Listing` gives, each projected on the listed columns |
| UserRecords.Listing | controllers/users.controller.js:58-60 | the `ORDER BY created_at DESC` order: every row id exactly once, no duplicates, creation times never increasing |
| UserRecords.SortByAge | controllers/users.controller.js:59 | newest-first rearrangement: same ids, same length, distinctness kept, creation times non-increasing |
| UserRecords.InsertByAge | controllers/users.controller.js:59 | inserting into a newest-first list keeps it newest first and adds exactly the one id |
| UserRecords.IdsBelow | controllers/users.controller.js:58-60 | exactly the row ids below a bound, strictly ascending |
| UsersController.Projected | controllers/users.controller.js:58-62 | one row object per listed id, and none has a `password` key when the columns leave it out |
| UserRecords.Select | controllers/users.controller.js:86-89 | a row object has exactly the selected columns, carries the row's id and email, and has no `password` key unless that column is selected |
| UserRecords.OnlyLoginReadsHash | controllers/auth.controller.js:177 | of all the column lists the handlers use, only login's includes `password` |
| UsersController.UserTable.GetUserById | controllers/users.controller.js:83-96 | 404 "User not found" exactly when the id is absent; otherwise 200 with that row, without the password hash |
| UsersController.UserTable.UpdateUser | controllers/users.controller.js:135-176 | 404 for an unknown id, then 400 for a truthy email held by another row, then 400 for a truthy registration number held by another row, each leaving the table unchanged; otherwise only the target row changes, by COALESCE; uniqueness is kept when no empty email or registration number is supplied; admins stay active |
| UserRecords.Coalesce | controllers/users.controller.js:161-172 | each supplied field replaces the stored one, each absent field keeps it; role, status, password, bio, image and creation time are untouched; the update time is now |
| UserRecords.CoalesceIdempotent | controllers/users.controller.js:161-172 | applying the same COALESCE update to the same row twice at the same time leaves the table as the first update left it |
| UserRecords.CoalesceEmptyBody | controllers/users.controller.js:161-172 | a body with no fields only moves the update time |
| UserRecords.CoalesceKeepsUnique | controllers/users.controller.js:146-172 | after both checks pass, the COALESCE update keeps email and registration number unique, provided neither is supplied as the empty string |
| UserRecords.ReplaceKeepsUnique | controllers/users.controller.js:146-159 | a replaced row whose email and registration number no other row holds keeps the table unique |
| UserRecords.SameKeysKeepUnique | controllers/users.controller.js:304-307 | rewriting a row without touching its email or registration number keeps the table unique |
| UserRecords.InsertKeepsUnique | controllers/auth.controller.js:93-118 | inserting under a new id a row whose email and registration number no row holds keeps the table unique |
| UserRecords.StoreKeepsAdminsActive | controllers/users.controller.js:257-260 | writing a row that is not an inactive admin keeps every admin active |
| UsersController.UserTable.DeleteUser | controllers/users.controller.js:196-213 | 404 for an unknown id, 403 "Cannot delete admin user" for an admin, each with the table unchanged; otherwise exactly that row is removed; no admin is ever removed |
| UserRecords.ParseStatus | controllers/users.controller.js:247 | only "active" and "inactive" are accepted, each as the status it names |
| UserRecords.RequestedStatus | controllers/users.controller.js:245-249 | a missing status or any other text is rejected; the two names map to their statuses |
| UsersController.UserTable.ToggleUserStatus | controllers/users.controller.js:243-268 | 400 for a bad status before any lookup, then 404, then 403 when an admin would be deactivated; otherwise only that row's status and update time change, and the message says "activated" or "deactivated"; admins stay active |
| UsersController.StatusUpdateIdempotent | controllers/users.controller.js:262-265 | applying the status update to the same row twice at the same time leaves the table as the first update left it |
| UsersController.UserTable.ResetUserPassword | controllers/users.controller.js:288-317 | 404 for an unknown id; otherwise only the target's hash and update time change, the hash verifies against the mailed 12-character generated password, and the answer is the same whatever the mail outcome |
| AuthController.NewStudent | controllers/auth.controller.js:112-118 | the inserted row is a student, active, with the body's email and registration number and the given hash |
| AuthController.Register | controllers/auth.controller.js:78-133 | 400 for a missing field, 400 for an email off the pattern, 409 for an email in use, then 409 for a registration number in use, each leaving the table unchanged; otherwise exactly one row under a fresh id, a student and active, whose hash verifies against the mailed password; 201 with the returned columns, never the hash; uniqueness and active admins kept |
| EmailFormat.CheckEmailMatchesPattern | controllers/auth.controller.js:88-91 | the scan accepts exactly the strings the pattern `^[^\s@]+@[^\s@]+\.[^\s@]+$` matches |
| EmailFormat.CheckEmailSound | controllers/auth.controller.js:88-91 | every address the scan accepts matches the pattern |
| EmailFormat.CheckEmailComplete | controllers/auth.controller.js:88-91 | every address the pattern matches passes the scan |
| EmailFormat.CheckEmail | controllers/auth.controller.js:88-89 | `emailRegex.test(email)` as a scan; an accepted address has at least five characters, an '@' and no whitespace; CheckEmailMatchesPattern ties it to the pattern |
| EmailFormat.IndexOf | controllers/auth.controller.js:88 | the first position of a character, with none before it, or the length when absent |
| AuthController.FirstWithEmail | controllers/auth.controller.js:176-186 | the first position in an id list whose account has the email; none before it does |
| AuthController.FindByEmail | controllers/auth.controller.js:176-186 | finds an account exactly when one has the email, and then the one with the smallest id |
| AuthController.EarlierIdsMiss | controllers/auth.controller.js:176-186 | no row whose id precedes the first match in ascending id order has the email |
| AuthController.GenerateToken | controllers/auth.controller.js:19-30 | the signed claims carry the account's id, email and role name; `username` is absent |
| AuthController.LoginData | controllers/auth.controller.js:200-210 | a successful login answers with exactly a token and a user object; the user object has the selected columns minus `password` |
| AuthController.Login | controllers/auth.controller.js:166-215 | 400 unless both fields are truthy; 401 "Invalid email or password" for an unknown email; for the account found, 401 "deactivated" if inactive whatever the password, 401 "Invalid email or password" for a wrong password, else the token and the account without its hash; success implies an active account whose hash verifies |
| AuthController.UnknownEmailLooksLikeWrongPassword | controllers/auth.controller.js:182-198 | an unknown email and a wrong password for an active account that alone holds its email get the very same 401 answer |
| AuthController.InactiveAccountIgnoresPassword | controllers/auth.controller.js:188-198 | on an inactive account that alone holds its email, any two passwords get the same "deactivated" 401 |
| AuthController.TokenRoleGatesAdmin | controllers/auth.controller.js:19-30 | a token issued at login passes `authorize('admin')` exactly for an admin account |
| AuthController.GetCurrentUser | controllers/auth.controller.js:231-248 | 404 "User not found" exactly when the token's id names no row; otherwise that row without the hash |
| Hashing.Hash | controllers/auth.controller.js:110 | a digest verifies against the password it was made from and against no other |
| Hashing.Encoded | controllers/auth.controller.js:110 | the stored text is the bcrypt header naming cost 10, followed by exactly the salt; the password never appears in it |
| AuthMiddleware.BearerToken | middleware/auth.js:17 | the second space-separated segment: no spaces, directly after "Bearer ", empty exactly when the prefix is followed by the end or another space |
| AuthMiddleware.Authenticate | middleware/auth.js:8-37 | proceeds, with the verified claims attached, exactly for a "Bearer " header with a non-empty token that verifies; missing or bad prefix and empty token give their own 401 messages; every rejection is a 401 without data |
| AuthMiddleware.AuthenticateFailureMessages | middleware/auth.js:29-36 | expired, malformed and other verification failures each map to their own 401 message |
| AuthMiddleware.Authorize | middleware/auth.js:42-54 | proceeds exactly when a user is attached and its role is listed; 401 without a user, 403 for another role |
| Routes.Find | routes/users.routes.js:22-145 | a found route has the requested verb and path; none is found only when no route matches |
| Routes.ListUsersRoute | routes/users.routes.js:22 | GET / runs authenticate then authorize('admin') before getAllUsers |
| Routes.GetUserRoute | routes/users.routes.js:45 | GET /:id runs only authenticate |
| Routes.UpdateUserRoute | routes/users.routes.js:70 | PUT /:id requires authenticate then admin |
| Routes.DeleteUserRoute | routes/users.routes.js:95 | DELETE /:id requires authenticate then admin |
| Routes.ToggleStatusRoute | routes/users.routes.js:120 | PATCH /:id/status requires authenticate then admin |
| Routes.ResetPasswordRoute | routes/users.routes.js:145 | POST /:id/reset-password requires authenticate then admin |
| Routes.RegisterRoute | routes/auth.routes.js:22 | POST /register requires authenticate then admin |
| Routes.LoginRoute | routes/auth.routes.js:36 | POST /login has no middleware |
| Routes.CurrentUserRoute | routes/auth.routes.js:52 | GET /me runs only authenticate |
| Routes.RouteTablePolicy | routes/users.routes.js:22-145 | in both routers every authorize comes after an authenticate, and every users route other than a GET carries authorize('admin') |
| Routes.RunChain | routes/users.routes.js:22-145 | the middleware of a route run in order, each calling `next()` or answering; an empty chain reaches the handler with the user unchanged, and a chain stopped early answers with a 401 or 403 failure without data |
| Routes.ReachedUser | middleware/auth.js:24-28 | a chain that reaches its handler with authenticate in it has accepted the header and attached the verified claims |
| Routes.ReachedRoles | middleware/auth.js:42-54 | a chain that starts with authenticate and reaches its handler has passed every authorize in it with the verified user's role |
| Routes.ReachedHandlerHasRole | middleware/auth.js:42-54 | a request that reaches a handler behind authorize(roles) carries a verified user whose role is listed |
| Routes.DeclaredRoutesEnforceRoles | routes/users.routes.js:22-145 | for every declared route, reaching the handler implies a verified user holding every role the chain demands |
| Routes.AdminOnlyReachedIffAdmin | routes/auth.routes.js:22 | the admin chain reaches its handler exactly when the token verifies to a user with the admin role |
| Routes.AnyAuthenticatedReachedIffVerified | routes/auth.routes.js:52 | the authenticate-only chain reaches its handler exactly when the header carries a token that verifies |
| Routes.LoginIsOpen | routes/auth.routes.js:36 | login is reached whatever the header, with no user attached |
| PasswordGenerator.PasswordLength | utils/passwordGenerator.js:6-25 | the number of characters produced: the requested length, 12 by default, and never fewer than 4 |
| PasswordGenerator.GenerateRandomPassword | utils/passwordGenerator.js:6-29 | the result has `PasswordLength` characters and is the four class characters and the fill, rearranged by the drawn permutation; the loop's invariant ties the built string to that sequence |
| PasswordGenerator.PasswordGuarantees | utils/passwordGenerator.js:7-28 | a generated password is a rearrangement of the drawn characters, holds an uppercase letter, a lowercase letter, a digit and a symbol, and nothing outside the charset |
| PasswordGenerator.PermutePreservesMultiset | utils/passwordGenerator.js:28 | shuffling by a permutation keeps every character as often as before |
| PasswordGenerator.UnshuffledFromClasses | utils/passwordGenerator.js:11-24 | the drawn characters start with one of each class, and all of them are in the charset |
| PasswordGenerator.GenerateRegistrationNumber | utils/passwordGenerator.js:37-41 | the number begins with "REG", the year and the batch number, and after them has at least four characters and at least as many as the id has digits; RegistrationNumberLayout states the rest |
| PasswordGenerator.RegistrationNumberLayout | utils/passwordGenerator.js:37-41 | "REG", the year and the batch number, then the id's digits zero-padded to at least four characters and never cut; reading the tail back as a number gives the id |
| Helpers.IsEmpty | utils/helpers.js:8-15 | true for null and undefined, for a blank string, an empty array and an object with no keys; false for a string with a non-whitespace character, a non-empty array or object, and every number and boolean |
| Helpers.StripAngles | utils/helpers.js:21 | the `/[<>]/g` replacement: no angle brackets left, no longer than before, every other character kept as often as before; a single bracket is deleted and any other single character kept |
| Helpers.StripAnglesAppend | utils/helpers.js:21 | the replacement works piece by piece, so the kept characters stay in their original order |
| Helpers.StripAnglesNoop | utils/helpers.js:21 | a string without angle brackets is left as it is |
| Helpers.Sanitize | utils/helpers.js:19-22 | non-strings pass unchanged; a string is trimmed and then loses its angle brackets, so it comes back no longer and without angle brackets |
| Helpers.SanitizeNotIdempotent | utils/helpers.js:21 | "< a" sanitizes to " a", which sanitizes again to "a" |
| Helpers.SanitizeIdempotentWithoutAngles | utils/helpers.js:21 | without angle brackets, sanitizing twice equals sanitizing once |
| JsString.Trim | utils/helpers.js:11 | `trim()`: the middle of the string with all leading and trailing whitespace, and only that, removed |
| JsString.TrimEmptyIffBlank | utils/helpers.js:11 | the trimmed string is empty exactly when the string is all whitespace |
| JsString.TrimKeeps | utils/helpers.js:11 | a string that neither starts nor ends with whitespace is its own trim |
| JsString.TrimIdempotent | utils/helpers.js:21 | trimming twice equals trimming once |
| JsString.Split | middleware/auth.js:17 | `split(' ')`: at least one part, no part contains the separator, and the first part is the text before the first separator |
| JsString.JoinSplit | middleware/auth.js:17 | joining the parts with the separator gives back the string |
| JsString.SplitAfterFirst | middleware/auth.js:17 | the parts after the first are the parts of the text after the first separator |
| JsString.SplitFirstRun | middleware/auth.js:17 | the first part ends at the first separator |
| JsString.PadStart | utils/passwordGenerator.js:39 | `padStart`: at least the target length, the original at the end, pad characters before it |
| JsString.NatToDecimal | utils/passwordGenerator.js:39 | `toString()` of a natural number: digits only, no leading zero |
| JsString.DecimalRoundTrip | utils/passwordGenerator.js:39 | reading the decimal text back gives the number |
| JsString.LeadingZerosIgnored | utils/passwordGenerator.js:39 | leading zeros do not change the value read back |
| Response.Success | utils/response.js:5-16 | success true with the message; status 200 unless given; a data field exactly when the data is truthy |
| Response.Error | utils/response.js:18-23 | success false with the message and no data; status 400 unless given |
| ErrorHandler.HandleError | middleware/errorHandler.js:1-17 | the status is `statusCode` when truthy, else 500; the message is `message` when truthy, else "Internal Server Error"; success false; a stack exactly in the development environment |

## Left out

- Email delivery (utils/emailService.js): a send is the `Mail.Message` it would carry plus a boolean outcome. Only logging reads that outcome. SMTP and HTML templating are not modelled.
- bcrypt: modelled as an ideal hash whose salt is passed in. The cost factor 10 appears only as the number in the stored header; the key-stretching work it sets, timing and collision behaviour are not modelled.
- Hashing.Encoded: the 31-character checksum bcrypt appends after the salt is not modelled, and the header is fixed to the `$2a$` variant, where the library may write `$2b$`. Only login reads the column back, through Compare, so no modelled answer depends on the checksum or the variant.
- Strings: a Dafny `string` is a sequence of Unicode scalar values, where a JavaScript string is a sequence of UTF-16 code units. Lengths and indices agree for text within the Basic Multilingual Plane, which holds the whitespace set, the password charset and the email pattern's classes; characters outside it are not modelled as surrogate pairs.
- JSON Web Tokens: signing and verification are function parameters. Expiry and the secret are not modelled. `generateToken` reads `user.username`, which no query selects, so that claim is always absent.
- Randomness: `Math.random`, the floating-point index arithmetic and the random-comparator sort are replaced by a `Draw`. A comparator sort is not guaranteed to produce a uniformly random permutation; the model admits every permutation. `randomString` (utils/helpers.js:27-29) is not modelled because it is pure randomness.
- The database: SQL text, the connection pool, query failures and the 500 answers the controllers' catch blocks and `asyncHandler` produce are not modelled. A path id that is not an integer makes the query fail, so ids are integers here.
- Concurrency: each handler runs atomically. The check-then-write race between two registrations, and the store-level constraint that backs it up, are not modelled.
- UsersController.UserTable.UpdateUser: uniqueness is kept only for bodies that do not supply an empty email or registration number. `if (email)` skips the check for "", but COALESCE still writes it, so two rows could end up sharing an empty email. The model writes it as the source does. If the store enforces a UNIQUE constraint on these columns, that second write would instead fail with a 500, which is not modelled.
- AuthController.FindByEmail: when several rows share an email, login takes the one with the smallest id. The source takes `rows[0]` of a SELECT without ORDER BY, whose order the database leaves open.
- UserRecords.Listing: rows created at the same instant come in ascending id order. The database leaves their order unspecified.
- Timestamps are integers from the caller, and the year of a registration number is a parameter. Clock reads are not modelled.
- PasswordGenerator.Charset: it is written as the concatenation of the four class strings. The source spells out the same 70 characters as one literal.
- JsString.IntToDecimal: `toString()` for numbers beyond the safe-integer range, fractions and exponent notation is not modelled. Numbers are integers throughout.
- The HTTP pipeline is not modelled: app.js (helmet, CORS, compression, logging, the rate limiter, the 404 fallback), controllers/health.controller.js, middleware/asyncHandler.js and config/.
- routes/index.js mounts only the health route; the users and auth routers are commented out there. The two route tables are modelled per router and are not claimed to be reachable under /api.
- The migration scripts (migrations/) are not modelled. `UserTable` starts empty; the seeded admin is not part of this model.
