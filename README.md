# Refresh-token sessions of auth-test-task, in Dafny

This project models the session core of a FastAPI authentication service and proves properties about it. The service keeps accounts in a relational `users` table. It keeps refresh sessions in Redis: the key is `refresh:<refresh token>` and the value is the user id in decimal. The two tokens travel as httponly cookies.

The model has these parts:

- **Stores.** Two objects model the stores:
  - `UserRepository.UserRepository` holds the table as `users: map<int, User>` plus the id sequence.
  - `SessionStore.SessionStore` holds the Redis keys as `entries: map<string, string>` plus each key's expiry.
  - The session value stays a string because the rotation parses it and can fail.
- **Services.** `AuthService.AuthService` and `AdminService.AdminService` hold references to the stores. Their methods change the stores step by step, in the source's order.
- **Results.** Operations return a `Result` of the error kinds in `Exceptions` instead of raising.
- **Time.** The clock is an explicit `now` in whole seconds.
- **Responses.** A response is reduced to its cookies, each a name → (value, max-age).
- **Token codec.** Tokens are built by a concrete, injective serialisation of the claim set (`JwtService.Encode`). `JwtService.DecodeToken` accepts exactly those strings, and only before `exp`.
- **Password hash.** The hash is a concrete salted string that `VerifyPassword` reads back.
- **Request bodies.** pydantic validates a body before the handler runs and answers 422 otherwise. `Register` requires `Schemes.ValidRegistration`, because its row must fit the table's columns. `Login` accepts any `LoginRequest`: nothing in it depends on `Schemes.ValidLoginRequest`, since an email that is not on file simply gives 404.
- **Python's integer conversion.** `str(int)` and `int(str)` are written out in `PyInt`, which is what the session value and the `sub` claim go through. `int()` refuses a numeral of more than 4300 digits, the default limit of Python 3.11 on.
- **Ids.** `users.id` is a PostgreSQL INTEGER. The driver (asyncpg) refuses an id parameter outside its range with a DataError before the query runs, and that ends the request with a 500 (`UserModel.IdOutOfRange`). Its sequence ends at 2³¹−1 (`UserModel.SequenceExhausted`), so every stored id is an INTEGER.
- **Database constraints.** The table's constraints are checked on every write: NOT NULL, `String(50)`/`String(20)` and UNIQUE email. The two writes treat None differently. On an INSERT the ORM leaves an attribute set to None out of the statement (`UserModel.DropNone`), so `is_active` and `role` take their defaults and a missing NOT NULL column without one is refused. On an UPDATE through `UserRepository.update` a None is written as NULL, and a NOT NULL column refuses it. PostgreSQL reports a duplicate email or a NULL as an IntegrityError and an over-long string as a DataError. A value of the wrong Python type (`UserModel.Typed`: bool for `is_active`, str for the other columns) never reaches the database: the driver refuses the parameter before the statement is sent. The model folds all of these into one value (`UserModel.WriteRefused`), answered with a 500. A refused write leaves the rows as they were, which is the rollback of the request's unit of work. PostgreSQL never gives back a sequence value, so an INSERT the table refuses still uses up the id it drew; one the driver refuses draws none.

The rotation behaves as follows:

- It never decodes the refresh token. Whether a token rotates depends only on whether its key is in the store, on the stored value, and on the user row.
- A successful rotation deletes the presented key before storing the new one.
- The algorithm comes from configuration (src/config/app.py:9). The model takes a deterministic one, as HMAC and RSA PKCS#1 signatures are, and `exp` has whole-second resolution. So a refresh in the same second, for the same user, as the presented token's minting re-mints that same string and stores it again.
- Single use therefore holds whenever the new token differs from the presented one (`AuthService.AuthService.RefreshToken`, `AuthRouter.ReplayIsRejected`).
- `AuthRouter.SameSecondReplay` shows the exception: a token obtained at login can be refreshed twice in the same second.

The role-change endpoint (src/api/admin/router.py:36-43) names only `get_admin_service` itself, but src/api/__init__.py:9 mounts the whole admin router with `Depends(require_admin)`. So every role change first runs the access guard and the admin check (`Dependencies.CurrentAdmin`). `AdminRouter.ChangeUserRole` composes the two: a caller who is not an active admin gets the guard's 401 or the 403 and changes nothing.

## Model

| member | source | states |
|---|---|---|
| Exceptions.StatusCode | src/exceptions/custom_exceptions.py:10-59 | a ServiceError answers with its own code; every other kind has a code of its own: 404, 401, 409, 400, 403, and 500 for a raw exception |
| Exceptions.Headers | src/exceptions/custom_exceptions.py:34-41 | only the 401 carries a header, and it is `WWW-Authenticate: Bearer` |
| Exceptions.NotFoundException | src/exceptions/custom_exceptions.py:23-30 | a NotFound error, status 404, detail defaulting to "Entity not found", no extra header |
| Exceptions.InvalidCredentialsException | src/exceptions/custom_exceptions.py:34-41 | an InvalidCredentials error, status 401, default detail "Invalid credentials", with the bearer header |
| Exceptions.AlreadyExistsException | src/exceptions/custom_exceptions.py:43-50 | an AlreadyExists error, status 409, default detail "Entity already exists" |
| Exceptions.RequestValidationException | src/exceptions/custom_exceptions.py:53-59 | a RequestValidation error, status 400, default detail "Validation error" |
| Exceptions.ServiceError | src/exceptions/custom_exceptions.py:10-19 | status defaults to 400; the public detail is the message when none (or an empty one) is given, and the given detail otherwise |
| PyInt.IntToString | src/security/jwt_service.py:35 | `str(n)` is non-empty, ends in a digit, and starts with '-' exactly for negative n |
| PyInt.ParseIntReadsNumerals | src/services/auth_service.py:123-127 | `int(s)` (PyInt.ParseInt) reads a string only when it holds nothing but whitespace, signs, digits and underscores, with at least one digit; every other string, and every numeral of more than 4300 digits however written, is a ValueError (None); a string within the limit reads as the numeral it holds |
| PyInt.ParseIntToString | src/services/auth_service.py:123-124 | `int(str(n)) == n` for every integer of at most 4300 digits, and a ValueError for every longer one |
| PyInt.TenDigitsRoundTrip | src/services/auth_service.py:123-124 | every INTEGER id is within the digit limit, so a stored id or a `sub` claim reads back as the id written |
| PyInt.IntToStringInjective | src/services/auth_service.py:50 | two ids give the same stored value exactly when they are equal |
| JwtService.Encode | src/security/jwt_service.py:39-43 | a token is never empty |
| JwtService.ParseEncoded | src/security/jwt_service.py:46-56 | reading an encoded claim set gives back exactly that claim set |
| JwtService.EncodeInjective | src/security/jwt_service.py:39-43 | two claim sets share a token exactly when they are equal |
| JwtService.DecodeToken | src/security/jwt_service.py:46-56 | a decoded payload is one whose encoding is the token, and it is not yet expired; every other string gives None, never a failure |
| JwtService.DecodeEncoded | src/security/jwt_service.py:46-56 | an encoded claim set decodes to itself before `exp` and to None from `exp` on |
| JwtService.DecodeEncodedAlways | src/security/jwt_service.py:46-56 | the same round trip, at every time at once |
| JwtService.CreateAccessToken | src/security/jwt_service.py:29-43 | the token decodes, at any time before now + minutes·60, to sub = str(user_id), type "access", exp = now + minutes·60, and to None afterwards |
| JwtService.CreateAccessTokenResponse | src/security/jwt_service.py:58-72 | the same token as create_access_token, with lifetime minutes·60 |
| JwtService.CreateRefreshToken | src/security/jwt_service.py:74-87 | the token decodes before now + days·86400 to sub = str(user_id), type "refresh", exp = now + days·86400, and to None afterwards; the lifetime is days·86400 |
| JwtService.AccessIsNotRefresh | src/security/jwt_service.py:34-38 | no access token equals any refresh token, for any users and times |
| JwtService.RefreshTokensCoincide | src/security/jwt_service.py:74-87 | two refresh tokens are the same string exactly when minted for the same user in the same second |
| JwtService.HashPassword | src/security/jwt_service.py:14-26 | verify_password accepts a candidate against the hash exactly when it is the password that was hashed |
| JwtService.VerifyPassword | src/security/jwt_service.py:21-26 | bcrypt.checkpw: a hash accepts a password only when it is the hash of that very password under some salt (with HashPassword: exactly the password hashed) |
| UserModel.Apply | src/repositories/user_repository.py:35 | an UPDATE keeps the id, gives each column in the dictionary its new value, and keeps every other column |
| UserModel.NewRow | src/Models/User.py:11-17 | a new row takes the given columns, with is_active defaulting to true and role to 'user' |
| UserModel.UserWithEmail | src/Models/User.py:12 | in a table with unique emails, the row holding an email that is on file |
| UserModel.UserWithEmailIsUnique | src/Models/User.py:12 | under the table invariant, a row is the one row with its email |
| UserModel.MatchesEmail | src/repositories/user_repository.py:21-24 | the filter `{"email": e}` matches a row exactly when its email is e |
| UserModel.UpdateKeepsInvariant | src/Models/User.py:12 | an UPDATE the table accepts keeps ids as keys and emails unique |
| UserModel.InsertKeepsInvariant | src/Models/User.py:12 | an INSERT the table accepts, under a fresh id, keeps ids as keys and emails unique |
| UserModel.ApplyIdempotent | src/repositories/user_repository.py:33-35 | writing the same columns twice is writing them once |
| UserModel.GetCondList | src/Models/User.py:21-30 | a KeyError exactly when the key is missing; otherwise the list is non-empty exactly when `email` is truthy, and then it is the single condition that the email column equals it |
| FilterStatement.GetFilterStatement | src/Models/base.py:7-30 | an order clause iff order_by is truthy, on that field, descending iff the direction is "desc"; an unknown field raises; the email condition only when extra is non-empty and its email truthy; extra lacking "email" raises; offset is the raw page and limit the size |
| FilterStatement.ListingQuery | src/api/admin/router.py:24-33 | the listing endpoint's filter yields order, optional email condition, page and size as given |
| Schemes.ValidLoginRequest | src/schemes/schemes.py:29-33 | an admitted login body has an email and a non-empty password |
| Schemes.PasswordsMatch | src/schemes/schemes.py:44-48 | the confirmation equals the password, character for character |
| Schemes.ValidRegistration | src/schemes/schemes.py:36-48 | an admitted registration has names of 1 to 50 characters, an email, and two equal passwords of at least 8 characters |
| Schemes.MakeUpdateUser | src/schemes/schemes.py:51-55 | a field is None exactly when it was sent as null; an omitted field holds its placeholder text, a sent one its value |
| Schemes.ValidUpdateInput | src/schemes/schemes.py:51-55 | the fields a client sends have names of at most 50 characters and a non-empty email; the placeholders are not validated |
| Schemes.DumpExcludeNone | src/services/auth_service.py:99 | the update dictionary holds exactly the non-None fields of the body, with their values |
| Schemes.NothingToUpdate | src/schemes/schemes.py:51-55 | the update dictionary is empty exactly when all three fields were sent as null, since an omitted field holds its placeholder text |
| Schemes.ValidUpdateFits | src/schemes/schemes.py:53-55 | a validated update body fits the name columns of the table |
| Schemes.UpdateWritesOnlySentFields | src/services/auth_service.py:99-103 | a partial update changes exactly the names and email the body carries; hash, active flag and role stay |
| Schemes.ToResponse | src/schemes/schemes.py:58-66 | the view carries id, names, email, is_active and role of the row, and no refresh-token hash |
| Schemes.ResponseHidesHash | src/schemes/schemes.py:58-66 | the view does not depend on the password hash |
| UserRepository.UserRepository.FindById | src/repositories/user_repository.py:16-19 | a DataError exactly for an id outside the INTEGER range; otherwise the row with that id, or none exactly when there is none |
| UserRepository.UserRepository.FindOneOrNone | src/repositories/user_repository.py:21-24 | a row of the table matching the filter, or none exactly when no row matches |
| UserRepository.UserRepository.Add | src/repositories/user_repository.py:26-31 | succeeds exactly when the sequence has an INTEGER left and the INSERT is acceptable; None values are left out of the INSERT, so the new row takes the defaults for them and is stored under the next id; a wrong-typed value is refused before an id is drawn and changes nothing; a spent sequence changes nothing; an INSERT the table refuses leaves the rows and uses up its id |
| UserRepository.UserRepository.Update | src/repositories/user_repository.py:33-39 | an id outside the INTEGER range gives the DataError and a missing id "User not found after update", both writing nothing; a refused write leaves the table; otherwise exactly the given keys are written to that row and the re-read row is returned |
| UserModel.DropNone | src/repositories/repository.py:39 | keeps exactly the keys whose value is not None, with their values |
| Repository.Repository.FindById | src/repositories/repository.py:15-17 | a DataError exactly for an id outside the INTEGER range; otherwise the row with that id, or none |
| Repository.Repository.FindAll | src/repositories/repository.py:23-29 | all rows without a filter, exactly the matching rows with one |
| Repository.Repository.Add | src/repositories/repository.py:31-35 | stores the new row, with the defaults in place of None values, under the next id when the sequence has an INTEGER left and the INSERT is acceptable; a wrong-typed value is refused before an id is drawn and changes nothing; a spent sequence changes nothing; an INSERT the table refuses leaves the rows and uses up its id |
| Repository.Repository.Update | src/repositories/repository.py:37-47 | drops None values; with nothing left it writes nothing and returns find_by_id's answer; otherwise an id outside the INTEGER range is the DataError, and it writes exactly the remaining keys and returns the re-read row |
| Repository.Repository.SoftDelete | src/repositories/repository.py:49-50 | only is_active of that row becomes false |
| SessionStore.SessionStore.Get | src/services/auth_service.py:118 | the value under the key, or none exactly when the key is absent |
| SessionStore.SessionStore.Set | src/services/auth_service.py:50 | the key holds the value with the given expiry; other keys are unchanged |
| SessionStore.SessionStore.Expire | src/services/auth_service.py:50 | the expiry of a stored key running out removes only that key |
| SessionStore.SessionStore.Delete | src/services/auth_service.py:135 | only that key is removed, and the count says whether it was present |
| Http.Presented | src/services/auth_service.py:113-115 | a cookie counts as presented exactly when it is there and non-empty |
| Dependencies.NamedId | src/di/dependencies.py:80-86 | a token names an id only when it decodes to an access payload whose `sub` int() reads as that id |
| Dependencies.ActiveUserWithId | src/di/dependencies.py:87-90 | the DataError for an id outside the INTEGER range; otherwise the stored user with that id when it is active, and "User not found or inactive" when there is none or it is inactive |
| Dependencies.GetCurrentUser | src/di/dependencies.py:72-90 | every failure is a 401, except the DataError, which comes only from a live access token whose `sub` reads as an id outside the INTEGER range; no cookie is "Not authenticated"; a cookie that does not decode to a live access payload whose `sub` reads as an integer is "Invalid token"; success is an active stored user whose id is int(sub) of a live token with type "access" from the access_token cookie; it only reads |
| Dependencies.AdmitsTheUserNamed | src/di/dependencies.py:83-90 | once the cookie decodes to a live access payload naming a user id, an id over 4300 digits is an invalid token and one outside the INTEGER range the DataError; otherwise the guard admits exactly that user, and only while the account exists and is active |
| Dependencies.AccessTokenAdmitsItsUser | src/di/dependencies.py:77-90 | an access token naming a user with expiry exp (CreateAccessToken mints exp = now + minutes·60) is refused with "Invalid token" from exp on, and for an id over 4300 digits; before exp an id outside the INTEGER range is the DataError, and otherwise it admits exactly the stored user when that account exists and is active, and otherwise answers "User not found or inactive" |
| Dependencies.RefreshTokenIsNotAccess | src/di/dependencies.py:80-82 | a refresh token in the access_token cookie is always rejected with "Invalid token" |
| Dependencies.RequireAdmin | src/di/dependencies.py:93-102 | the same user exactly when its role is "admin", otherwise 403 "Admin access required" |
| Dependencies.CurrentAdmin | src/di/dependencies.py:93-102 | the guard's own error when it fails; otherwise admits exactly the admins it finds |
| AuthService.SessionKey | src/services/auth_service.py:49 | the key is "refresh:" followed by the token |
| AuthService.SessionKeyInjective | src/services/auth_service.py:117 | two tokens share a session key exactly when they are equal |
| AuthService.SessionCookieOpensSession | src/services/auth_service.py:49-57 | the refresh cookie a session sets is non-empty and carries the token whose key was stored |
| AuthService.RegistrationRowFits | src/services/auth_service.py:68-74 | a validated registration fits the table's columns, and its row is active with role 'user' |
| AuthService.AuthService.StartSession | src/services/auth_service.py:46-57 | stores exactly one key for the new refresh token, holding str(id), with the refresh lifetime; sets the access cookie with max-age minutes·60 and the refresh cookie with the refresh lifetime |
| AuthService.AuthService.Login | src/services/auth_service.py:37-59 | an unknown email gives 404; a wrong password and a disabled account give 401; a failure stores nothing and sets no cookie; success returns the user's view and starts exactly one session |
| AuthService.AuthService.Register | src/services/auth_service.py:62-87 | an email on file gives 409 and changes neither store; a spent id sequence gives its DataError and changes neither store; otherwise one new row (active, role 'user', hash verifying the password) and exactly one session |
| AuthService.AuthService.UpdateProfile | src/services/auth_service.py:92-105 | a new email held by a row gives 409 and writes nothing; an empty update gives "No data to update" and writes nothing; otherwise, for a user id in the INTEGER range, exactly the non-None fields are written |
| AuthService.AuthService.DeleteUser | src/services/auth_service.py:107-110 | only is_active of the user becomes false (an id outside the INTEGER range is the DataError and writes nothing); the sessions are untouched |
| AuthService.AuthService.RefreshToken | src/services/auth_service.py:112-146 | no cookie, and a missing or empty session, give 401 and change nothing; a corrupt value (including one over 4300 digits) or a gone or inactive user deletes that session and gives 401; an id outside the INTEGER range is the DataError and keeps the session; success deletes the old key and stores the new one for the same user; the presented token is spent unless it was re-minted |
| AuthRouter.ClearedCookies | src/api/auth/router.py:41-42 | exactly the two session cookies, each emptied with max-age 0 |
| AuthRouter.Logout | src/api/auth/router.py:31-44 | deletes exactly the presented token's key, changes nothing without a cookie, always clears both cookies, cannot fail, and needs no user |
| AuthRouter.LogoutTwice | src/api/auth/router.py:37-44 | two logouts with the same cookies leave the state one logout leaves: the token's key removed from entries and expiries, or the store unchanged without a cookie |
| AuthRouter.RefreshAfterLogout | src/api/auth/router.py:37-39 | after logout the same refresh cookie gives 401, at any later time |
| AuthRouter.ReplayIsRejected | src/services/auth_service.py:117-140 | a refresh token that rotated into a different token is rejected when presented again |
| AuthRouter.SameSecondReplay | src/services/auth_service.py:135-140 | after a login, two refreshes with its cookie in the same second both succeed |
| AdminService.AdminService.UpdatingRole | src/services/admin_service.py:10-15 | an id outside the INTEGER range gives the DataError and an unknown id 409 "User not fount by id", both with no change; otherwise only that user's role is written, and the returned view carries the new role; an over-long role is refused by the table |
| AdminService.AdminService.UpdatingRoleTwice | src/services/admin_service.py:14 | applying the same role twice gives the same response both times and the table one application gives: only that user's role changed, or nothing for an id outside the INTEGER range, an unknown id or an over-long role |
| AdminRouter.ChangeUserRole | src/api/admin/router.py:36-43 | a caller the access guard refuses gets that error, and an active non-admin 403 "Admin access required", both with the table unchanged; for an admin, an id outside the INTEGER range is the DataError and an unknown id 409, with no change, and otherwise only that user's role becomes the requested one; it succeeds only for a caller that passes `require_admin`, which src/api/__init__.py:9 attaches to the router |

## Left out

- I/O and clocks: the database session, the Redis connection and `datetime.now` are replaced by the store objects and the `now` parameter.
- Concurrency: the awaits are treated as atomic sequential steps. The race between two refreshes of one token, and between the email check and the INSERT, is not modelled.
- Redis expiry: time does not pass. A key's running out is the explicit step `SessionStore.SessionStore.Expire`.
- JWT signatures, the algorithm, the secret and base64 are foreign code. They are replaced by the injective `Encode`, so a forged token is simply a string that does not decode.
- JwtService.Encode: the same claims always give the same token. A randomised signature algorithm (ECDSA, RSA-PSS), which the configuration could select, would give a new string each time; the same-second replay below rests on the deterministic case.
- JwtService.DecodeToken: treats a token as expired from second `exp` on. python-jose still accepts it during that second.
- JwtService.HashPassword: bcrypt is replaced by a salted string. Its cost factor, its 72-byte limit and the random salt are not modelled; the salt is a parameter.
- `hash_refresh_token` and `verify_refresh_token`: they are not used anywhere.
- PyInt.ParseInt: Unicode whitespace and non-ASCII digits, which Python's `int()` also accepts, are not modelled. The digit limit is the default 4300; `sys.set_int_max_str_digits` and `PYTHONINTMAXSTRDIGITS` are not modelled.
- PyInt.IntToString: `str()` of an integer of more than 4300 digits raises in Python 3.11 on; the model's `str` is total. It is applied only to stored ids, which are INTEGERs, and to token expiry times, which the token codec writes with its own numerals (`PyInt.ParseNumeral` reads them back without the limit).
- JwtService.VerifyPassword: a stored string that is not a bcrypt hash makes `bcrypt.checkpw` raise ValueError (a 500); the model answers false. Only hashes made by hash_password are ever stored.
- Schemes.IsEmail: pydantic's EmailStr is foreign code; it is replaced by "one '@' with text on both sides", with no normalisation.
- `get_me` (src/services/auth_service.py:88-90): it is the projection `Schemes.ToResponse`.
- The `created_at` and `updated_at` timestamps: they are set by the database clock.
- Cookie attributes other than value and max-age: httponly, secure, samesite and path.
- The error handlers, logging, `print` calls, settings loading, the DI factories and app wiring.
- `get_session`'s commit and rollback: the rollback shows up as "a refused write leaves the rows unchanged".
- Repository.Repository.FindAll: returns the set of rows; row order is not modelled.
- Repository.Repository.SoftDelete: takes the id of a stored row instead of the entity object.
- AdminRouter.ChangeUserRole: requires the role to be "admin" or "user", because FastAPI checks the `Literal` parameter before the handler runs and answers 422 otherwise; that 422 is not modelled.
- `get_all_users` (src/api/admin/router.py:14-33): the paginated listing is done by fastapi-pagination and is not part of this model.
- The defaults of the pagination filter: its `Field(...)` defaults are not values.
- UserModel.Typed: SQLAlchemy's Boolean type also takes the integers 0 and 1 for `is_active`; the model refuses every non-bool there, which only a caller passing integers could notice.
- Column dictionaries range over the six writable columns. A key that is not a column cannot be written, so that failure of `User(**entity)` is not modelled.
- JwtService.ValidConfig: the refresh lifetime is assumed positive. Redis refuses `SET ... EX` with a lifetime of zero or less, so the source then fails with a 500 at src/services/auth_service.py:50, 80 and 140, and register's INSERT is rolled back. That failure is not modelled. The access lifetime may be any integer.
- AuthService.AuthService.RefreshToken: single use is promised only when the re-minted token differs from the presented one. In the same second, for the same user, they are one string, and the old token keeps working (`AuthRouter.SameSecondReplay`).
