# handshakr backend rules in Dafny

This project models the deterministic rules at the core of the handshakr
Spring backend. In that backend, two registered users agree on a named
"handshake" and then move it through its statuses. The model covers:

- **The handshake registry** (`handshake/HandshakeServiceImpl`, the
  `Handshake` entity and `HandshakeDto.from`): creation, status update, and
  the name, initiator and acceptor queries. The table is a `seq<Handshake>`
  whose names are unique. This module also models the action routes of
  `controller/HandshakeController`.
- **Users and authentication** (`user/UserServiceImpl`, and both
  `AuthServiceImpl` variants, `security/auth` and the older `auth`):
  - guarded lookups and existence checks over a `seq<User>`;
  - registration as an ordered chain of checks;
  - the translation of Spring's authentication failures.
- **The error taxonomy**:
  - the three exception-type enums and their per-constant `create`;
  - the three factories;
  - the exception class hierarchy, written out explicitly;
  - `GlobalExceptionHandler`, which dispatches to the handler whose listed
    class is the nearest superclass of the thrown class, and answers with a
    status and an `ApiResponse` envelope.
- **Cookies and CSRF**:
  - `utils/CookieUtils.createSecureCookie`, as a record;
  - the SameSite policy of `config/CookieConfig`;
  - `PersistentCookieCsrfTokenRepository`. It keeps the CSRF token in the
    `XSRF-TOKEN` cookie and writes the Set-Cookie header only when the
    request did not send the cookie back. The two classes,
    `security/PersistentCookieCsrfTokenRepository.java` and
    `security/config/PersistentCookieCsrfTokenRepository.java`, have the same
    code (their comments and log lines differ) and share one model.

Every Java method that can throw becomes a pure function returning
`Result<T, Exception>`. The exception is a value: its class, its message
and its cause. The store's behaviour is passed in as an explicit parameter:

- whether a read answers (`ReadStatus`);
- how a save ends (`SaveOutcome`);
- what the authentication manager says (`ManagerOutcome`).

The password encoder, the UUID and the controller's clock reading are
parameters too.

The source does not compile as a whole. Each file is modelled as written:

- `HandshakeServiceImpl` names `ExceptionType.X` constants without importing
  the enum, and hands them to its `HandshakeExceptionFactory`, whose `create`
  refuses anything but a `HandshakeExceptionType`. `HandshakeService` models
  the evidently intended reading: each call builds the constant of
  `exceptions/types/ExceptionType`. `HandshakeServiceAsWritten` models the
  calls as written, each throwing IllegalArgumentException (see Findings).
- `ExceptionType.CONFLICT` does not exist. In the intended reading it is an
  abstract ConflictException that carries its first parameter as the message.
- `HandshakeExceptionFactory` has no `userNotFound`. That call builds the
  general USER_NOT_FOUND exception.
- `HandshakeExceptionFactory.databaseError` names a `DATABASE_ERROR` constant
  that `HandshakeExceptionType` lacks. It yields a DatabaseException with the
  given message.
- `ExceptionFactory` declares no `serviceUnavailable` or `databaseError`, yet
  `UserServiceImpl` calls both. Each is `create` with the constant of that
  name.
- `HandshakeDto.from` calls `getReceiverUsername`, which the entity does not
  declare. The entity's `acceptorUsername` is used.
- `HandshakeController` calls a two-argument `updateHandshake(name, status)`
  that the implementation does not declare. The route builds the update
  request, and its update date is the caller's clock reading.
- `config/CookieConfig` reads the cookie name from a constants class of the
  `auth` package that is not part of this model. It is taken to be the
  `XSRF-TOKEN` of the top-level `Constants` interface.

Modules, one per source area:

| module | models |
|---|---|
| `Common` | shared types and helpers |
| `Envelope` | `ApiResponse` |
| `Exceptions` | the hierarchy |
| `ExceptionMessages`, `GeneralExceptionTypes`, `UserExceptionTypes`, `HandshakeExceptionTypes` | the enums |
| `FactorySupport`, `GeneralFactory`, `UserFactory`, `HandshakeFactory` | the factories |
| `ErrorHandler` | the global exception handler |
| `Repository`, `Users` | the user store and `UserServiceImpl` |
| `AuthRequests`, `SecureAuth`, `LegacyAuth` | the two auth services |
| `HandshakeModel`, `HandshakeStore`, `HandshakeService` | the entity, the table and the service as intended |
| `HandshakeServiceAsWritten` | the service's factory calls as written, related to the intended service |
| `HandshakeController` | the routes |
| `ClientResponses` | services composed with the handler, i.e. what a client sees |
| `AppConstants`, `SecureCookies`, `SameSitePolicy`, `CsrfTokenRepository` | constants, cookies and CSRF |

## Model

Paths are relative to the repository root. Every path starts with
`src/main/java/com/handshakr/handshakr_prototype/` or
`src/test/java/com/handshakr/handshakr_prototype/`.

| member | source | states |
|---|---|---|
| Envelope.Success | src/main/java/com/handshakr/handshakr_prototype/response/ApiResponse.java:21-23 | `success(message, data)` answers 200 and carries message and data unchanged |
| Envelope.SuccessEmpty | src/main/java/com/handshakr/handshakr_prototype/response/ApiResponse.java:31-33 | `success(message)` answers 200 with null data |
| Envelope.Error | src/main/java/com/handshakr/handshakr_prototype/response/ApiResponse.java:42-44 | `error(message, status)` keeps the given status and has null data |
| Exceptions.SuperclassesFollowParent | src/main/java/com/handshakr/handshakr_prototype/exceptions/user/AccountLockedException.java:5 | the written-out superclass chain of each class is the class followed by its parent's chain, so `IsA` is the closure of the `extends` clauses |
| Exceptions.HierarchyFacts | src/main/java/com/handshakr/handshakr_prototype/exceptions/security/InvalidCredentialsException.java:5 | AccountLocked is an InvalidCredentials and a BadCredentials; the handshake service-unavailable exception is a ServiceUnavailable; both already-exists exceptions are Conflicts |
| Exceptions.IsATransitive | src/main/java/com/handshakr/handshakr_prototype/exceptions/user/AccountLockedException.java:5 | `instanceof` through a chain of `extends` is transitive |
| Exceptions.AncestorsAreOrdered | src/main/java/com/handshakr/handshakr_prototype/exceptions/user/AccountLockedException.java:5 | single inheritance: two superclasses of one class are related to each other |
| Exceptions.EverythingIsRuntime | src/main/java/com/handshakr/handshakr_prototype/exceptions/GlobalExceptionHandler.java:228 | every class is caught by the `Exception.class` fallback |
| Exceptions.CatchBranchesDisjoint | src/main/java/com/handshakr/handshakr_prototype/security/auth/AuthServiceImpl.java:92-97 | a class falls under at most one of BadCredentials, Disabled, Locked and AuthenticationService, so the order of the catch clauses does not decide which one runs |
| GeneralExceptionTypes.Create | src/main/java/com/handshakr/handshakr_prototype/exceptions/types/ExceptionType.java:4-63 | each constant builds its declared class with no cause; the four constants that read `params[0]` throw out-of-bounds exactly when no parameter is given |
| GeneralExceptionTypes.CreateMessages | src/main/java/com/handshakr/handshakr_prototype/exceptions/types/ExceptionType.java:4-63 | BAD_REQUEST's message is `p0`; USER_NOT_FOUND, HANDSHAKE_NOT_FOUND and USER_ALREADY_EXISTS embed `p0`; INVALID_CREDENTIALS and ACCOUNT_DISABLED ignore parameters; SERVICE_UNAVAILABLE, DATABASE_ERROR and ACCOUNT_LOCKED use `p0` or their default |
| GeneralExceptionTypes.CreateIgnoresExtraParams | src/main/java/com/handshakr/handshakr_prototype/exceptions/types/ExceptionType.java:8 | parameters after the first never change the result |
| GeneralExceptionTypes.ValuesEnumerateAll | src/main/java/com/handshakr/handshakr_prototype/exceptions/types/ExceptionType.java:3-64 | `values()` lists every constant, each once |
| UserExceptionTypes.Create | src/main/java/com/handshakr/handshakr_prototype/exceptions/user/UserExceptionType.java:8-60 | the out-of-bounds failure happens exactly for the three constants that read `p0` when no parameter is given; BAD_REQUEST's message is `p0` |
| UserExceptionTypes.SameAsGeneral | src/main/java/com/handshakr/handshakr_prototype/exceptions/user/UserExceptionType.java:8-60 | every user constant builds exactly what the general constant of the same name builds, for every parameter list |
| UserExceptionTypes.GeneralHasTwin | src/main/java/com/handshakr/handshakr_prototype/exceptions/user/UserExceptionType.java:8-60 | every general constant except HANDSHAKE_NOT_FOUND has a user twin |
| UserExceptionTypes.ValuesEnumerateAll | src/main/java/com/handshakr/handshakr_prototype/exceptions/user/UserExceptionType.java:8-60 | `values()` lists every constant |
| HandshakeExceptionTypes.Create | src/main/java/com/handshakr/handshakr_prototype/exceptions/handshake/HandshakeExceptionType.java:6-46 | only HANDSHAKE_SERVICE_UNAVAILABLE tolerates no parameters; each constant builds its declared class with no cause |
| HandshakeExceptionTypes.CreateMessages | src/main/java/com/handshakr/handshakr_prototype/exceptions/handshake/HandshakeExceptionType.java:6-46 | the name-carrying constants give different messages for different names; BAD_REQUEST passes `p0` through; service-unavailable defaults to "Handshake service unavailable" |
| HandshakeExceptionTypes.ValuesEnumerateAll | src/main/java/com/handshakr/handshakr_prototype/exceptions/handshake/HandshakeExceptionType.java:6-46 | `values()` lists every constant |
| FactorySupport.RegisterAll | src/main/java/com/handshakr/handshakr_prototype/exceptions/ExceptionFactory.java:19-23 | after the `initializeMap` loop the map's keys are exactly the constants of `values()` |
| FactorySupport.Cast | src/main/java/com/handshakr/handshakr_prototype/exceptions/ExceptionFactory.java:33-36 | the convenience methods' cast keeps a result of the target class, turns any other returned class into ClassCastException, and lets a thrown exception through |
| GeneralFactory.NewExceptionFactory | src/main/java/com/handshakr/handshakr_prototype/exceptions/ExceptionFactory.java:14-23 | the constructor registers every ExceptionType, so the map is total |
| GeneralFactory.Create | src/main/java/com/handshakr/handshakr_prototype/exceptions/ExceptionFactory.java:25-30 | a null type throws IllegalArgumentException; on a built factory any other type gives exactly `type.create(params)`; IllegalArgumentException means a null type or an incomplete map |
| GeneralFactory.ConvenienceIsCreate | src/main/java/com/handshakr/handshakr_prototype/exceptions/ExceptionFactory.java:33-61 | each convenience method is `create` with its matching constant and its argument as the only parameter |
| GeneralFactory.UserAlreadyExists | src/main/java/com/handshakr/handshakr_prototype/exceptions/ExceptionFactory.java:33-36 | USER_ALREADY_EXISTS with the username; the cast succeeds |
| GeneralFactory.UserNotFound | src/main/java/com/handshakr/handshakr_prototype/exceptions/ExceptionFactory.java:38-41 | USER_NOT_FOUND with the identifier; the cast succeeds |
| GeneralFactory.InvalidCredentials | src/main/java/com/handshakr/handshakr_prototype/exceptions/ExceptionFactory.java:43-46 | INVALID_CREDENTIALS with no parameters, an InvalidCredentials exception |
| GeneralFactory.AccountDisabled | src/main/java/com/handshakr/handshakr_prototype/exceptions/ExceptionFactory.java:48-51 | ACCOUNT_DISABLED, also an InvalidCredentials exception |
| GeneralFactory.HandshakeNotFound | src/main/java/com/handshakr/handshakr_prototype/exceptions/ExceptionFactory.java:53-56 | HANDSHAKE_NOT_FOUND with the identifier |
| GeneralFactory.BadRequest | src/main/java/com/handshakr/handshakr_prototype/exceptions/ExceptionFactory.java:58-61 | a BadRequest exception with the message unchanged |
| GeneralFactory.ServiceUnavailable | src/main/java/com/handshakr/handshakr_prototype/user/UserServiceImpl.java:48 | a ServiceUnavailable exception with the message unchanged |
| GeneralFactory.DatabaseError | src/main/java/com/handshakr/handshakr_prototype/user/UserServiceImpl.java:60 | a Database exception with the message unchanged |
| UserFactory.NewUserExceptionFactory | src/main/java/com/handshakr/handshakr_prototype/exceptions/UserExceptionFactory.java:19-28 | the constructor registers every UserExceptionType |
| UserFactory.Create | src/main/java/com/handshakr/handshakr_prototype/exceptions/UserExceptionFactory.java:31-36 | anything but a UserExceptionType, null included, throws IllegalArgumentException; on a built factory a user constant gives its own `create` |
| UserFactory.ForeignConstantsRefused | src/main/java/com/handshakr/handshakr_prototype/exceptions/UserExceptionFactory.java:32-34 | a general or handshake constant is refused whatever the parameters |
| UserFactory.UserAlreadyExists | src/main/java/com/handshakr/handshakr_prototype/exceptions/UserExceptionFactory.java:39-42 | USER_ALREADY_EXISTS with the username as the only parameter |
| UserFactory.UserNotFound | src/main/java/com/handshakr/handshakr_prototype/exceptions/UserExceptionFactory.java:44-47 | USER_NOT_FOUND with the identifier as the only parameter |
| UserFactory.InvalidCredentials | src/main/java/com/handshakr/handshakr_prototype/exceptions/UserExceptionFactory.java:49-52 | INVALID_CREDENTIALS with no parameters |
| UserFactory.AccountDisabled | src/main/java/com/handshakr/handshakr_prototype/exceptions/UserExceptionFactory.java:54-57 | an InvalidCredentials-class exception saying "Account is disabled" |
| UserFactory.BadRequest | src/main/java/com/handshakr/handshakr_prototype/exceptions/UserExceptionFactory.java:59-62 | a BadRequest exception with the message unchanged |
| UserFactory.ServiceUnavailable | src/main/java/com/handshakr/handshakr_prototype/exceptions/UserExceptionFactory.java:64-67 | a ServiceUnavailable exception with the message unchanged |
| UserFactory.DatabaseError | src/main/java/com/handshakr/handshakr_prototype/exceptions/UserExceptionFactory.java:69-72 | a Database exception with the message unchanged |
| UserFactory.AccountLocked | src/main/java/com/handshakr/handshakr_prototype/exceptions/UserExceptionFactory.java:74-77 | an AccountLocked exception with the message unchanged |
| HandshakeFactory.NewHandshakeExceptionFactory | src/main/java/com/handshakr/handshakr_prototype/exceptions/HandshakeExceptionFactory.java:15-24 | the constructor registers every HandshakeExceptionType |
| HandshakeFactory.Create | src/main/java/com/handshakr/handshakr_prototype/exceptions/HandshakeExceptionFactory.java:26-31 | anything but a HandshakeExceptionType throws IllegalArgumentException; otherwise the constant's own `create` |
| HandshakeFactory.BadRequest | src/main/java/com/handshakr/handshakr_prototype/exceptions/HandshakeExceptionFactory.java:33-36 | a BadRequest exception with the message unchanged |
| HandshakeFactory.HandshakeAlreadyExists | src/main/java/com/handshakr/handshakr_prototype/exceptions/HandshakeExceptionFactory.java:38-41 | HANDSHAKE_ALREADY_EXISTS with the name as the only parameter |
| HandshakeFactory.HandshakeNotFound | src/main/java/com/handshakr/handshakr_prototype/exceptions/HandshakeExceptionFactory.java:43-46 | HANDSHAKE_NOT_FOUND with the identifier as the only parameter |
| HandshakeFactory.ReceiverNotFound | src/main/java/com/handshakr/handshakr_prototype/exceptions/HandshakeExceptionFactory.java:48-51 | RECEIVER_NOT_FOUND with the username |
| HandshakeFactory.InitiatorNotFound | src/main/java/com/handshakr/handshakr_prototype/exceptions/HandshakeExceptionFactory.java:53-56 | INITIATOR_NOT_FOUND with the username |
| HandshakeFactory.DatabaseError | src/main/java/com/handshakr/handshakr_prototype/exceptions/HandshakeExceptionFactory.java:58-60 | a Database exception with the message unchanged |
| HandshakeFactory.ServiceUnavailable | src/main/java/com/handshakr/handshakr_prototype/exceptions/HandshakeExceptionFactory.java:62-65 | a HandshakeServiceUnavailable exception with the message unchanged |
| ErrorHandler.Nearest | src/main/java/com/handshakr/handshakr_prototype/exceptions/GlobalExceptionHandler.java:54-236 | the class that decides the handler is a superclass of the thrown class that some handler lists |
| ErrorHandler.NearestIsNearest | src/main/java/com/handshakr/handshakr_prototype/exceptions/GlobalExceptionHandler.java:54-236 | every other listed superclass lies above it: the most specific listed class wins |
| ErrorHandler.Dispatch | src/main/java/com/handshakr/handshakr_prototype/exceptions/GlobalExceptionHandler.java:54-236 | the chosen handler lists a superclass of the thrown class |
| ErrorHandler.DispatchMatchesTable | src/main/java/com/handshakr/handshakr_prototype/exceptions/GlobalExceptionHandler.java:54-236 | nearest-superclass dispatch agrees, class by class, with the written-out handler table |
| ErrorHandler.RootChildrenFallThrough | src/main/java/com/handshakr/handshakr_prototype/exceptions/GlobalExceptionHandler.java:228 | an unlisted class directly under the root reaches the fallback |
| ErrorHandler.DeeperClassesFallThrough | src/main/java/com/handshakr/handshakr_prototype/exceptions/GlobalExceptionHandler.java:228 | AccountStatus, AuthenticationService and IncorrectResultSize reach the fallback too |
| ErrorHandler.UnavailableSubclassesInherit | src/main/java/com/handshakr/handshakr_prototype/exceptions/GlobalExceptionHandler.java:182 | the handshake and user service-unavailable exceptions reach the 503 handler |
| ErrorHandler.MessageFollowsInstanceOf | src/main/java/com/handshakr/handshakr_prototype/exceptions/GlobalExceptionHandler.java:63-71 | `instanceof` against ConstraintViolation, MethodArgumentNotValid, Disabled or DataIntegrityViolation holds exactly for that class |
| ErrorHandler.Handle | src/main/java/com/handshakr/handshakr_prototype/exceptions/GlobalExceptionHandler.java:54-236 | every response's envelope repeats the response status and carries no data; the status is one of 400, 401, 403, 404, 409, 500, 503 |
| ErrorHandler.HandleFollowsDispatch | src/main/java/com/handshakr/handshakr_prototype/exceptions/GlobalExceptionHandler.java:54-236 | the response is the status and message of the handler Spring dispatches to |
| ErrorHandler.ListedClassesUseTheirHandler | src/main/java/com/handshakr/handshakr_prototype/exceptions/GlobalExceptionHandler.java:96-127 | a listed class is answered by its own handler even when a superclass is listed elsewhere |
| ErrorHandler.UnlistedClassesInherit | src/main/java/com/handshakr/handshakr_prototype/exceptions/GlobalExceptionHandler.java:182 | an unlisted class is answered as its parent is |
| ErrorHandler.ValidationResponses | src/main/java/com/handshakr/handshakr_prototype/exceptions/GlobalExceptionHandler.java:54-86 | the three validation classes give 400; BadRequest keeps its message; the others prefix their field errors with "Validation failed: " or "Invalid request: " |
| ErrorHandler.AuthenticationFailureResponses | src/main/java/com/handshakr/handshakr_prototype/exceptions/GlobalExceptionHandler.java:96-105 | BadCredentials, UsernameNotFound and InvalidCredentials give 401 "Invalid username or password", whatever their message |
| ErrorHandler.LockedAccountIsForbidden | src/test/java/com/handshakr/handshakr_prototype/controller/AuthControllerTest.java:153-164 | AccountLockedException gives 403 "Account is locked", although its superclass InvalidCredentials alone gives 401 |
| ErrorHandler.AccountStatusResponses | src/main/java/com/handshakr/handshakr_prototype/exceptions/GlobalExceptionHandler.java:115-127 | Disabled gives 403 "Account is disabled", Locked 403 "Account is locked" |
| ErrorHandler.NotFoundResponses | src/main/java/com/handshakr/handshakr_prototype/exceptions/GlobalExceptionHandler.java:137-148 | the not-found classes give 404 with their own message |
| ErrorHandler.ConflictResponses | src/main/java/com/handshakr/handshakr_prototype/exceptions/GlobalExceptionHandler.java:158-172 | the conflict classes give 409 with their own message |
| ErrorHandler.IntegrityViolationResponse | src/main/java/com/handshakr/handshakr_prototype/exceptions/GlobalExceptionHandler.java:164-172 | a data-integrity violation gives 409 "Database error: " followed by its cause, or by "Constraint violation" when it has none |
| ErrorHandler.UnavailableResponses | src/main/java/com/handshakr/handshakr_prototype/exceptions/GlobalExceptionHandler.java:182-187 | the service-unavailable classes give 503 with their own message |
| ErrorHandler.DatabaseAndAuthorizationResponses | src/main/java/com/handshakr/handshakr_prototype/exceptions/GlobalExceptionHandler.java:197-217 | Database gives 500 and UnauthorizedAccess 403, each with its own message |
| ErrorHandler.FallbackResponses | src/main/java/com/handshakr/handshakr_prototype/exceptions/GlobalExceptionHandler.java:228-236 | everything no handler lists gives 500 "An unexpected error occurred" |
| ErrorHandler.HandledIsNeverSuccess | src/main/java/com/handshakr/handshakr_prototype/response/ApiResponse.java:21-44 | an exception the handler answers never gets status 200 and never an envelope equal to a `success` one, so a client tells failures from successes by the status |
| ErrorHandler.HandshakeServiceDownIsUnavailable | src/test/java/com/handshakr/handshakr_prototype/controller/HandshakeControllerTest.java:140-147 | the handshake factory's service-unavailable exception is answered with 503 and its message |
| ErrorHandler.FactoryAccountDisabledIsUnauthorized | src/main/java/com/handshakr/handshakr_prototype/exceptions/UserExceptionFactory.java:54-57 | `accountDisabled()` is answered with 401 "Invalid username or password", not with the 403 of Spring's DisabledException |
| Repository.FindOne | src/main/java/com/handshakr/handshakr_prototype/handshake/HandshakeRepository.java:36 | a derived `Optional` query: empty exactly when no row matches, the matching row when exactly one does, IncorrectResultSizeDataAccessException when several do |
| Users.FindByUsername | src/main/java/com/handshakr/handshakr_prototype/user/UserServiceImpl.java:21-28 | null or blank input is refused with a bad request; a found user is stored under that name; an unknown name gives UserNotFound naming the input; under unique names a stored name is always found |
| Users.FindByEmail | src/main/java/com/handshakr/handshakr_prototype/user/UserServiceImpl.java:31-38 | the same, keyed on the email |
| Users.Usernames | src/main/java/com/handshakr/handshakr_prototype/user/UserServiceImpl.java:41-50 | one username per stored user, in store order; a failing read becomes ServiceUnavailable with its message |
| Users.UsernameExists | src/main/java/com/handshakr/handshakr_prototype/user/UserServiceImpl.java:53-62 | blank input is refused; otherwise exactly the store's membership answer, or a database error when the read fails |
| Users.EmailExists | src/main/java/com/handshakr/handshakr_prototype/user/UserServiceImpl.java:65-74 | the same, keyed on the email |
| Users.SaveUser | src/main/java/com/handshakr/handshakr_prototype/user/UserServiceImpl.java:77-89 | null is refused; a saved user under a new name is appended, one under a stored name is written over that row, and the user is returned; a constraint violation or another failure becomes a database error with its message and leaves the table alone |
| Users.SaveStoredUserChangesNothing | src/main/java/com/handshakr/handshakr_prototype/user/UserServiceImpl.java:77-89 | saving a user exactly as stored leaves the table as it was: saving is idempotent |
| Users.ExistsAgreesWithFind | src/main/java/com/handshakr/handshakr_prototype/user/UserServiceImpl.java:53-62 | on a store with unique keys, the existence checks answer true exactly when the lookups find a user |
| Users.SaveThenFind | src/main/java/com/handshakr/handshakr_prototype/user/UserServiceImpl.java:77-89 | saving a user with a new name and email keeps the keys unique, and the user is then found under either key |
| SecureAuth.Register | src/main/java/com/handshakr/handshakr_prototype/security/auth/AuthServiceImpl.java:46-78 | a null or blank username is refused, then a failed read, then a taken username, then a null or blank or taken email; a null password throws NullPointerException and a password under 8 UTF-16 units is a bad request; a failed save is the user service's database error; it succeeds exactly when every check passes and the save succeeds, appending the user with the encoded password |
| SecureAuth.RegisterCheckOrder | src/main/java/com/handshakr/handshakr_prototype/security/auth/AuthServiceImpl.java:48-65 | a taken username is reported whatever the email and password; a null password is never reported as a bad request once both keys are given |
| SecureAuth.IntegrityViolationIsDatabaseError | src/main/java/com/handshakr/handshakr_prototype/security/auth/AuthServiceImpl.java:74-77 | the bad-request translation never fires: the user service already turned the violation into a database error |
| SecureAuth.RegisterThenFind | src/main/java/com/handshakr/handshakr_prototype/security/auth/AuthServiceImpl.java:67-73 | a registered user keeps the table unique and is found by name with the encoded password |
| SecureAuth.Authenticate | src/main/java/com/handshakr/handshakr_prototype/security/auth/AuthServiceImpl.java:84-99 | returns the principal on success; bad credentials (subclasses included), disabled and locked are re-raised as the Spring class they were caught as, with fixed messages; anything else propagates |
| SecureAuth.AuthenticateKeepsCategory | src/main/java/com/handshakr/handshakr_prototype/security/auth/AuthServiceImpl.java:92-97 | every re-raised failure is still an instance of the class it was caught as |
| LegacyAuth.Register | src/main/java/com/handshakr/handshakr_prototype/auth/AuthServiceImpl.java:33-65 | the same ordered checks against the repository, a null key matching no row; either failing read propagates; a null password throws NullPointerException; a constraint violation becomes a bad request naming its cause and another save failure propagates; success exactly when every check passes, both keys are given and the save succeeds, appending the user |
| LegacyAuth.RegisterThenFind | src/main/java/com/handshakr/handshakr_prototype/auth/AuthServiceImpl.java:54-60 | a user registered on a unique table keeps it unique and is found again under both keys with the encoded password |
| LegacyAuth.RegisterAgreesWithSecure | src/main/java/com/handshakr/handshakr_prototype/auth/AuthServiceImpl.java:33-65 | on a request with non-blank keys whose reads answer and whose save succeeds, both services give the same answer and the same table |
| LegacyAuth.BlankUsernameReachesTheStore | src/main/java/com/handshakr/handshakr_prototype/auth/AuthServiceImpl.java:35-38 | without the user service in between, a blank username is looked up like any other, where the secure service refuses it |
| LegacyAuth.Authenticate | src/main/java/com/handshakr/handshakr_prototype/auth/AuthServiceImpl.java:68-100 | a null or blank username, then password, is refused before the manager is asked; success exactly when both are present and the manager accepts; each failure class gets its translation |
| LegacyAuth.Translate | src/main/java/com/handshakr/handshakr_prototype/auth/AuthServiceImpl.java:85-99 | bad credentials become InvalidCredentials "Invalid username or password", a disabled account InvalidCredentials "Account is disabled", locked and authentication-service failures bad requests with the service's messages; anything else propagates |
| HandshakeModel.NewHandshake | src/main/java/com/handshakr/handshakr_prototype/handshake/Handshake.java:44-58 | every argument lands in its own field; the status is CREATED and the update date unset |
| HandshakeModel.From | src/main/java/com/handshakr/handshakr_prototype/handshake/dto/HandshakeDto.java:27-37 | name, details, status and usernames are copied; the signed date is the creation date and the completed date the last update |
| HandshakeModel.Updated | src/main/java/com/handshakr/handshakr_prototype/handshake/HandshakeServiceImpl.java:83-84 | only the status and the update date change |
| HandshakeModel.FromAfterUpdate | src/main/java/com/handshakr/handshakr_prototype/handshake/dto/HandshakeDto.java:31-33 | the DTO of an updated record differs from the old DTO in status and completed date only |
| HandshakeModel.FromNewHandshake | src/main/java/com/handshakr/handshakr_prototype/handshake/Handshake.java:31 | a fresh handshake shows as CREATED, signed on its creation date, never completed |
| HandshakeStore.AppendKeepsUnique | src/main/java/com/handshakr/handshakr_prototype/handshake/Handshake.java:22-23 | appending a record under a new name keeps the names unique |
| HandshakeStore.ReplaceKeepsUnique | src/main/java/com/handshakr/handshakr_prototype/handshake/Handshake.java:22-23 | replacing a record by one of the same name keeps the names unique |
| HandshakeService.ConflictRaised | src/main/java/com/handshakr/handshakr_prototype/handshake/HandshakeServiceImpl.java:42-44 | the missing CONFLICT constant is a Conflict carrying its parameter |
| HandshakeService.UserNotFoundRaised | src/main/java/com/handshakr/handshakr_prototype/handshake/HandshakeServiceImpl.java:59-60 | the missing `userNotFound` builds the general user-not-found exception |
| HandshakeService.Unavailable | src/main/java/com/handshakr/handshakr_prototype/handshake/HandshakeServiceImpl.java:64-67 | the catch-all wraps a message as ServiceUnavailable after a prefix |
| HandshakeService.CreateAttempt | src/main/java/com/handshakr/handshakr_prototype/handshake/HandshakeServiceImpl.java:37-56 | succeeds exactly when both users are found, the name is free and the save succeeds, appending the new record; a missing initiator is what it throws |
| HandshakeService.CreateCatch | src/main/java/com/handshakr/handshakr_prototype/handshake/HandshakeServiceImpl.java:58-68 | a missing user blames the acceptor when the message contains "username", else the initiator; an integrity violation becomes a database error naming its cause; anything else becomes ServiceUnavailable |
| HandshakeService.CreateHandshake | src/main/java/com/handshakr/handshakr_prototype/handshake/HandshakeServiceImpl.java:30-69 | a null request is a bad request; success appends exactly one CREATED record built from the request under a name not stored before, keeps every other record and keeps names unique |
| HandshakeService.FailedAttemptIsCaught | src/main/java/com/handshakr/handshakr_prototype/handshake/HandshakeServiceImpl.java:36-68 | whatever the attempt throws reaches the caller through the catch clauses, with the table unchanged |
| HandshakeService.MissingUserBeforeDuplicate | src/main/java/com/handshakr/handshakr_prototype/handshake/HandshakeServiceImpl.java:37-45 | an unknown initiator is reported even when the name is also taken |
| HandshakeService.AttemptRejectsDuplicate | src/main/java/com/handshakr/handshakr_prototype/handshake/HandshakeServiceImpl.java:41-45 | a taken name throws the conflict once both users are found |
| HandshakeService.ConflictIsWrapped | src/main/java/com/handshakr/handshakr_prototype/handshake/HandshakeServiceImpl.java:64-68 | the conflict is caught by the catch-all and wrapped as ServiceUnavailable |
| HandshakeService.DuplicateNameIsUnavailable | src/main/java/com/handshakr/handshakr_prototype/handshake/HandshakeServiceImpl.java:41-68 | a taken name adds no record, and the caller sees ServiceUnavailable "Failed to create handshake: ...", not a conflict |
| HandshakeService.MissingAcceptorBlamesInitiator | src/main/java/com/handshakr/handshakr_prototype/handshake/HandshakeServiceImpl.java:58-60 | an unknown acceptor whose message lacks "username" is reported under the initiator's name |
| HandshakeService.MissingAcceptorExample | src/main/java/com/handshakr/handshakr_prototype/handshake/HandshakeServiceImpl.java:58-60 | with alice registered and bob not, alice's handshake with bob fails naming alice |
| HandshakeService.UpdateHandshake | src/main/java/com/handshakr/handshakr_prototype/handshake/HandshakeServiceImpl.java:72-91 | a null request or name is a bad request; success needs an answered read, one record of that name and a saved write, and replaces that record by its update, keeping names unique; a failed read and an absent name each become a database error around their own message |
| HandshakeService.UpdateAttempt | src/main/java/com/handshakr/handshakr_prototype/handshake/HandshakeServiceImpl.java:77-86 | succeeds exactly when the read answers, one record has the name and the save succeeds; a failed read throws the data-access exception; an absent name throws HANDSHAKE_NOT_FOUND |
| HandshakeService.AnyStatusMayFollowAny | src/main/java/com/handshakr/handshakr_prototype/handshake/HandshakeServiceImpl.java:83-84 | any status may follow any other: there is no transition guard |
| HandshakeService.ValidateUsername | src/main/java/com/handshakr/handshakr_prototype/handshake/HandshakeServiceImpl.java:172-176 | passes exactly the non-null, non-blank usernames |
| HandshakeService.SingleQuery | src/main/java/com/handshakr/handshakr_prototype/handshake/HandshakeServiceImpl.java:130-140 | the DTO of the one match exactly when the read answers and one record matches; a failed read, no match or several matches become ServiceUnavailable with the getter's prefix and the respective message |
| HandshakeService.GetHandshakeByName | src/main/java/com/handshakr/handshakr_prototype/handshake/HandshakeServiceImpl.java:126-141 | a blank name is refused before the store is read; the DTO of the stored record of that name; a failed read or an unknown name is ServiceUnavailable with the read's message or the not-found message |
| HandshakeService.GetHandshakeByAcceptor | src/main/java/com/handshakr/handshakr_prototype/handshake/HandshakeServiceImpl.java:94-107 | succeeds exactly when the username is valid, the read answers and one handshake has that acceptor, with its DTO; a failed read or no match is ServiceUnavailable with the acceptor prefix |
| HandshakeService.GetHandshakeByInitiator | src/main/java/com/handshakr/handshakr_prototype/handshake/HandshakeServiceImpl.java:110-123 | succeeds exactly when the username is valid, the read answers and one handshake has that initiator, with its DTO; a failed read or no match is ServiceUnavailable with the initiator prefix |
| HandshakeService.ListQuery | src/main/java/com/handshakr/handshakr_prototype/handshake/HandshakeServiceImpl.java:145-154 | as many DTOs as matching records, each of a match and every match included; a failing read is ServiceUnavailable |
| HandshakeService.GetHandshakesByInitiator | src/main/java/com/handshakr/handshakr_prototype/handshake/HandshakeServiceImpl.java:143-155 | a blank username is refused; otherwise one DTO per handshake the user initiated |
| HandshakeService.GetHandshakesByAcceptor | src/main/java/com/handshakr/handshakr_prototype/handshake/HandshakeServiceImpl.java:157-170 | a blank username is refused; otherwise one DTO per handshake the user accepts |
| HandshakeService.CreateThenGetByName | src/main/java/com/handshakr/handshakr_prototype/handshake/HandshakeServiceImpl.java:47-56 | a created handshake is found by its name as CREATED, never updated, with the request's fields |
| HandshakeService.UpdateThenGetByName | src/main/java/com/handshakr/handshakr_prototype/handshake/HandshakeServiceImpl.java:78-86 | after an update the lookup by name shows the new status and date and nothing else changed |
| HandshakeService.StoredNameIsUpdated | src/main/java/com/handshakr/handshakr_prototype/handshake/HandshakeServiceImpl.java:78-86 | updating a stored name replaces exactly the record stored under it |
| HandshakeService.StoredNameIsFound | src/main/java/com/handshakr/handshakr_prototype/handshake/HandshakeServiceImpl.java:130-135 | in a table with unique names, the lookup by name returns the record stored under it |
| HandshakeService.CreateExtendsInitiatorList | src/main/java/com/handshakr/handshakr_prototype/handshake/HandshakeServiceImpl.java:143-155 | a created handshake joins its initiator's list with the earlier entries kept: the list gains exactly its DTO (as a multiset), and comes last when matches are listed as the table holds them |
| HandshakeServiceAsWritten.FactoryCreate | src/main/java/com/handshakr/handshakr_prototype/exceptions/HandshakeExceptionFactory.java:26-31 | the service's factory refuses every constant that is not a HandshakeExceptionType with IllegalArgumentException "Invalid HandshakeExceptionType" |
| HandshakeServiceAsWritten.RefusedPassesNarrowCatches | src/main/java/com/handshakr/handshakr_prototype/handshake/HandshakeServiceImpl.java:58-63 | the refused exception and a conflict are neither missing-user nor integrity-violation exceptions, so the narrow catch clauses let them pass |
| HandshakeServiceAsWritten.CreateAttemptAsWritten | src/main/java/com/handshakr/handshakr_prototype/handshake/HandshakeServiceImpl.java:36-56 | as written, the attempt succeeds exactly as intended; a taken name throws the refused exception instead of the conflict; other failures are the same |
| HandshakeServiceAsWritten.CreateCatchAsWritten | src/main/java/com/handshakr/handshakr_prototype/handshake/HandshakeServiceImpl.java:58-68 | as written, a missing user or an integrity violation is handled as intended, and everything else ends in the refused exception |
| HandshakeServiceAsWritten.CreateHandshakeAsWritten | src/main/java/com/handshakr/handshakr_prototype/handshake/HandshakeServiceImpl.java:30-69 | as written, creation stores what the intended version stores and fails when it fails; its service-unavailable answers become the refused exception, every other failure is the same |
| HandshakeServiceAsWritten.DuplicateNameAnswers | src/main/java/com/handshakr/handshakr_prototype/handshake/HandshakeServiceImpl.java:41-68 | a taken name is answered 500 "An unexpected error occurred" as written, where the intended version answers 503 with the reason |
| HandshakeServiceAsWritten.UpdateAttemptAsWritten | src/main/java/com/handshakr/handshakr_prototype/handshake/HandshakeServiceImpl.java:77-86 | as written, the attempt is the intended one on a failed read or a stored name; an answered read without the name throws the refused exception |
| HandshakeServiceAsWritten.UpdateHandshakeAsWritten | src/main/java/com/handshakr/handshakr_prototype/handshake/HandshakeServiceImpl.java:72-91 | as written, an update is the intended one except for an answered read without the name, reported as a database error "Failed to update handshake: Invalid HandshakeExceptionType" |
| HandshakeServiceAsWritten.UpdateOfUnknownNameAnswers | src/main/java/com/handshakr/handshakr_prototype/handshake/HandshakeServiceImpl.java:77-90 | both versions answer an unknown name with 500; as written the message names the refused constant, as intended the missing handshake |
| HandshakeServiceAsWritten.SingleQueryAsWritten | src/main/java/com/handshakr/handshakr_prototype/handshake/HandshakeServiceImpl.java:130-140 | as written, the DTO of the one match exactly when the read answers and there is one match, and the refused exception otherwise |
| HandshakeServiceAsWritten.GetHandshakeByNameAsWritten | src/main/java/com/handshakr/handshakr_prototype/handshake/HandshakeServiceImpl.java:126-141 | as written, a blank name and a found handshake are answered as intended; every other failure is the refused exception |
| HandshakeServiceAsWritten.GetHandshakeByAcceptorAsWritten | src/main/java/com/handshakr/handshakr_prototype/handshake/HandshakeServiceImpl.java:94-107 | as written, a blank username and a found handshake are answered as intended; every other failure is the refused exception |
| HandshakeServiceAsWritten.GetHandshakeByInitiatorAsWritten | src/main/java/com/handshakr/handshakr_prototype/handshake/HandshakeServiceImpl.java:110-123 | as written, a blank username and a found handshake are answered as intended; every other failure is the refused exception |
| HandshakeServiceAsWritten.UnknownNameAnswers | src/main/java/com/handshakr/handshakr_prototype/handshake/HandshakeServiceImpl.java:130-140 | an unknown name is answered 500 "An unexpected error occurred" as written, where the intended version answers 503 naming the handshake |
| HandshakeServiceAsWritten.UnmatchedUserAnswers | src/main/java/com/handshakr/handshakr_prototype/handshake/HandshakeServiceImpl.java:94-123 | a user with no handshake on the queried side is answered 500 with the generic message as written, 503 naming the user as intended |
| HandshakeServiceAsWritten.ListQueryAsWritten | src/main/java/com/handshakr/handshakr_prototype/handshake/HandshakeServiceImpl.java:145-154 | as written, an answered read lists as intended and a failed read is the refused exception |
| HandshakeServiceAsWritten.GetHandshakesByInitiatorAsWritten | src/main/java/com/handshakr/handshakr_prototype/handshake/HandshakeServiceImpl.java:143-155 | as written, the intended answer except that a failed read is the refused exception |
| HandshakeServiceAsWritten.GetHandshakesByAcceptorAsWritten | src/main/java/com/handshakr/handshakr_prototype/handshake/HandshakeServiceImpl.java:157-170 | as written, the intended answer except that a failed read is the refused exception |
| HandshakeServiceAsWritten.FailedListReadAnswers | src/main/java/com/handshakr/handshakr_prototype/handshake/HandshakeServiceImpl.java:143-170 | a failed list read is answered 500 with the generic message as written, 503 with the read's message as intended |
| HandshakeController.StatusTable | src/main/java/com/handshakr/handshakr_prototype/controller/HandshakeController.java:100-140 | accept requests ACCEPTED, complete COMPLETED, reject and cancel CANCELLED; no route requests CREATED, PENDING or FAILED; the messages tell the four routes apart |
| HandshakeController.Act | src/main/java/com/handshakr/handshakr_prototype/controller/HandshakeController.java:100-140 | the name goes unchanged into one update with the route's status; the route fails exactly when the update fails; on success the named records carry that status and a data-less 200 envelope is returned |
| HandshakeController.ActionResponse | src/main/java/com/handshakr/handshakr_prototype/controller/HandshakeController.java:100-140 | the HTTP answer is 200 with the route's message, or the global handler's answer to the exception |
| HandshakeController.ActionSucceedsIffOk | src/main/java/com/handshakr/handshakr_prototype/controller/HandshakeController.java:100-140 | an action route answers 200 exactly when the service's update succeeds |
| HandshakeController.FailedReadIsServerError | src/main/java/com/handshakr/handshakr_prototype/handshake/HandshakeServiceImpl.java:87-90 | a failed read during an action is answered with 500 and "Failed to update handshake: " followed by the driver's message |
| HandshakeController.RejectAndCancelDifferOnlyInMessage | src/main/java/com/handshakr/handshakr_prototype/controller/HandshakeController.java:112-140 | reject and cancel leave the same table and fail alike; only the message differs |
| HandshakeController.MissingNameIsServerError | src/main/java/com/handshakr/handshakr_prototype/handshake/HandshakeServiceImpl.java:87-90 | an action on an unknown name answers 500 with the wrapped message, where the not-found exception alone would give 404 |
| HandshakeController.ActionOnStoredName | src/main/java/com/handshakr/handshakr_prototype/controller/HandshakeController.java:100-104 | an action on a stored name always succeeds with 200 and its message |
| HandshakeController.Retrieve | src/main/java/com/handshakr/handshakr_prototype/controller/HandshakeController.java:35-66 | "Handshake retrieved" with the service's DTO, or the service's exception |
| HandshakeController.RetrieveAll | src/main/java/com/handshakr/handshakr_prototype/controller/HandshakeController.java:74-92 | "Handshakes retrieved" with the service's list, or the service's exception |
| HandshakeController.BlankKeysAreBadRequests | src/main/java/com/handshakr/handshakr_prototype/controller/HandshakeController.java:35-66 | a blank key is answered with 400 on every single-handshake route |
| HandshakeController.UnknownNameIsUnavailable | src/main/java/com/handshakr/handshakr_prototype/handshake/HandshakeServiceImpl.java:136-140 | an unknown name is answered with 503 and the wrapped not-found message, not 404 |
| HandshakeController.FailedLookupIsUnavailable | src/main/java/com/handshakr/handshakr_prototype/handshake/HandshakeServiceImpl.java:136-140 | a failed read on the name route is answered with 503 and "Failed to retrieve handshake by name: " followed by the driver's message |
| ClientResponses.SecureAccountStatusIsForbidden | src/main/java/com/handshakr/handshakr_prototype/security/auth/AuthServiceImpl.java:94-97 | secure login answers a disabled or locked account with 403 and the handler's fixed message |
| ClientResponses.SecureBadCredentialsIsUnauthorized | src/main/java/com/handshakr/handshakr_prototype/security/auth/AuthServiceImpl.java:92-93 | secure login answers every bad-credentials failure with 401, AccountLocked included, though AccountLocked alone gives 403 |
| ClientResponses.LegacyDisabledIsUnauthorized | src/main/java/com/handshakr/handshakr_prototype/auth/AuthServiceImpl.java:88-90 | legacy login answers a disabled account with 401 "Invalid username or password" |
| ClientResponses.LegacyLockedIsBadRequest | src/main/java/com/handshakr/handshakr_prototype/auth/AuthServiceImpl.java:92-94 | legacy login answers a locked account with 400 and the service's message |
| ClientResponses.LegacyServiceDownIsBadRequest | src/main/java/com/handshakr/handshakr_prototype/auth/AuthServiceImpl.java:96-98 | legacy login answers a failing authentication service with 400 and the service's message |
| ClientResponses.LegacyMissingCredentialsAreBadRequests | src/main/java/com/handshakr/handshakr_prototype/auth/AuthServiceImpl.java:70-75 | missing credentials are answered with 400 whatever the manager would say, with "Username is required" first |
| ClientResponses.DuplicateHandshakeIsUnavailable | src/main/java/com/handshakr/handshakr_prototype/handshake/HandshakeServiceImpl.java:41-68 | a duplicate handshake name is answered with 503, where the conflict alone would give 409 |
| SecureCookies.CreateSecureCookie | src/main/java/com/handshakr/handshakr_prototype/utils/CookieUtils.java:28-41 | name, value, HttpOnly and max-age as given; always Secure, path "/", SameSite None |
| SecureCookies.FixedAttributesAgree | src/main/java/com/handshakr/handshakr_prototype/utils/CookieUtils.java:36-39 | two cookies built here differ only in what the caller passed |
| SameSitePolicy.AnyPrefixOf | src/main/java/com/handshakr/handshakr_prototype/config/CookieConfig.java:55-56 | true exactly when some listed prefix starts the string |
| SameSitePolicy.IsWebOrigin | src/main/java/com/handshakr/handshakr_prototype/config/CookieConfig.java:51-57 | a request without an Origin header is web; otherwise web exactly when the origin starts with a listed web origin |
| SameSitePolicy.ExtensionsOfWebOriginsAreWeb | src/main/java/com/handshakr/handshakr_prototype/config/CookieConfig.java:19-22 | the test is on prefixes: any extension of a web origin is web |
| SameSitePolicy.OtherOriginIsNotWeb | src/main/java/com/handshakr/handshakr_prototype/config/CookieConfig.java:19-22 | an origin starting with neither listed origin is not web |
| SameSitePolicy.SameSiteFor | src/main/java/com/handshakr/handshakr_prototype/config/CookieConfig.java:25-39 | other cookies get no override; the CSRF cookie gets Lax exactly for web requests and None exactly for others; reading the request throws when none is bound or the attributes are not a servlet request's |
| SameSitePolicy.SameSiteForRequestAsWritten | src/main/java/com/handshakr/handshakr_prototype/config/CookieConfig.java:41-49 | as written, NullPointerException when no request is bound, a value otherwise |
| SameSitePolicy.SameSiteForRequest | src/main/java/com/handshakr/handshakr_prototype/config/CookieConfig.java:41-49 | None exactly for a servlet request from a non-web origin, Lax otherwise, non-servlet attributes and no request included |
| SameSitePolicy.AsWrittenThrowsWithoutRequest | src/main/java/com/handshakr/handshakr_prototype/config/CookieConfig.java:42 | with no request bound the method as written throws where the fallback intends Lax; elsewhere the two agree |
| SameSitePolicy.SupplierFollowsRequestPolicy | src/main/java/com/handshakr/handshakr_prototype/config/CookieConfig.java:25-49 | on a servlet request the supplier gives the CSRF cookie the value the request policy picks |
| CsrfTokenRepository.LoadTokenValue | src/main/java/com/handshakr/handshakr_prototype/security/PersistentCookieCsrfTokenRepository.java:86-93 | the value of the first XSRF-TOKEN cookie; none with no cookies, no match, or a null value on the first match |
| CsrfTokenRepository.DefaultToken | src/main/java/com/handshakr/handshakr_prototype/security/PersistentCookieCsrfTokenRepository.java:35-36 | the token carries the X-XSRF-TOKEN header and XSRF-TOKEN parameter names; an empty value is refused |
| CsrfTokenRepository.GenerateToken | src/main/java/com/handshakr/handshakr_prototype/security/PersistentCookieCsrfTokenRepository.java:32-38 | reuses the cookie's value when present, else the fresh UUID; the names are always X-XSRF-TOKEN / XSRF-TOKEN |
| CsrfTokenRepository.SaveToken | src/main/java/com/handshakr/handshakr_prototype/security/PersistentCookieCsrfTokenRepository.java:47-63 | exactly one Set-Cookie is added when the request has no token and the token has a value, none otherwise; that cookie carries the value, is not HttpOnly and lasts for the session |
| CsrfTokenRepository.LoadToken | src/main/java/com/handshakr/handshakr_prototype/security/PersistentCookieCsrfTokenRepository.java:71-84 | null exactly when the request carries no token value; an empty cookie value makes the token constructor throw IllegalArgumentException; otherwise a token holding the cookie's value |
| CsrfTokenRepository.GenerateIsIdempotent | src/main/java/com/handshakr/handshakr_prototype/security/PersistentCookieCsrfTokenRepository.java:33-35 | on a request that carries the cookie, generating again gives the same token |
| CsrfTokenRepository.GenerateAgreesWithLoad | src/main/java/com/handshakr/handshakr_prototype/security/PersistentCookieCsrfTokenRepository.java:72-75 | on such a request generating and loading give the same token |
| CsrfTokenRepository.NoCsrfCookieNoValue | src/main/java/com/handshakr/handshakr_prototype/security/PersistentCookieCsrfTokenRepository.java:86-93 | cookies none of which is XSRF-TOKEN carry no token |
| CsrfTokenRepository.AppendedCsrfCookieIsFirst | src/main/java/com/handshakr/handshakr_prototype/security/PersistentCookieCsrfTokenRepository.java:86-93 | a CSRF cookie after only other cookies is the one read |
| CsrfTokenRepository.SaveThenLoad | src/main/java/com/handshakr/handshakr_prototype/security/PersistentCookieCsrfTokenRepository.java:52-60 | round trip: a saved token comes back unchanged from the next request that returns the cookie, and generating then reuses it |
| CsrfTokenRepository.SavedOnlyOnce | src/main/java/com/handshakr/handshakr_prototype/security/PersistentCookieCsrfTokenRepository.java:52 | once the browser returns the cookie, saving any token leaves the response alone |
| CsrfTokenRepository.FirstCookieWins | src/main/java/com/handshakr/handshakr_prototype/security/PersistentCookieCsrfTokenRepository.java:90-92 | a later XSRF-TOKEN cookie is ignored, even when the first has a null value |
| CsrfTokenRepository.FreshRequestGetsSecureCookie | src/main/java/com/handshakr/handshakr_prototype/security/PersistentCookieCsrfTokenRepository.java:36 | a request without the cookie gets the UUID token and a Secure, SameSite=None session cookie for it |

## Left out

- JWT services, the Spring Security and CORS configuration, servlet filters, and every controller other than `controller/HandshakeController`. They are framework plumbing outside this model.
- Logging (`System.out.println` in `CookieConfig` and the CSRF repository). It has no effect on results.
- The clock, UUID generation and the password encoder. They are parameters: a `Timestamp`, a non-empty UUID string, an uninterpreted `encode` function.
- The generated entity id, and the conversion between `Date` and `Instant` in the DTO. Both dates are one opaque `Timestamp`.
- The Set-Cookie header text. A cookie is the record of its attributes, and the response's headers are a list of such records.
- Null exception messages and causes. Every modelled exception has a message, so concatenations such as `"Failed to ...: " + e.getMessage()` never print "null".
- Repository.FindOne: gives Spring's IncorrectResultSizeDataAccessException a fixed message. The real message also names the row count.
- Users.FindByUsername: the read of `findByUsername` always answers. A failing read would leave the method as the driver's exception; that case is not modelled.
- Users.FindByEmail: the read of `findByEmail` always answers. A failing read would leave the method as the driver's exception; that case is not modelled.
- HandshakeService.SaveError: the data-integrity exception's own message is a fixed placeholder. Only its cause comes from the database.
- HandshakeService.ConflictRaised: `ExceptionType.CONFLICT` does not exist in the source. The exception is an abstract Conflict carrying its parameter.
- HandshakeService.UserNotFoundRaised: `HandshakeExceptionFactory.userNotFound` does not exist. It is modelled as the general user-not-found exception.
- HandshakeFactory.DatabaseError: the `DATABASE_ERROR` constant it names does not exist. It returns a Database exception with the message, without going through `create`.
- GeneralFactory.ServiceUnavailable: not declared by `ExceptionFactory`. It is modelled as `create(SERVICE_UNAVAILABLE, message)`.
- GeneralFactory.DatabaseError: not declared by `ExceptionFactory`. It is modelled as `create(DATABASE_ERROR, message)`.
- HandshakeModel.From: `getReceiverUsername` names no field. The acceptor username is used.
- HandshakeController.Act: the two-argument `updateHandshake(name, status)` it calls is not declared by the service. The update request is built with the caller's clock reading.
- SameSitePolicy.SameSiteFor: the cookie name comes from a constants class of the `auth` package that is not part of this model. It is taken to be "XSRF-TOKEN".
- SecureAuth.Authenticate: the cast of the principal to `UserDetails` is not modelled. The principal is returned as the user.
- LegacyAuth.Authenticate: the same cast (`auth/AuthServiceImpl.java:82`) is not modelled either. The principal is returned as the user.
- Classes that share a simple name across packages are one class here. The consequence: `HandshakeServiceImpl` catches `exceptions.user.UserNotFoundException` (lines 5 and 58), while `UserServiceImpl` throws the `UserNotFoundException` that `exceptions/types/ExceptionType` names. Kept apart, those two classes would never match, and the branch that HandshakeService.MissingAcceptorBlamesInitiator exercises would never be taken.
- HandshakeService.AttemptRejectsDuplicate: it states the intended ConflictException for a taken name. As written, `create(ExceptionType.CONFLICT, ...)` (line 42) throws IllegalArgumentException "Invalid HandshakeExceptionType" instead (HandshakeServiceAsWritten.CreateAttemptAsWritten).
- HandshakeService.CreateCatch: its catch-all wraps as intended. As written, the catch-all's `create(SERVICE_UNAVAILABLE, ...)` (lines 65-67) throws the refused IllegalArgumentException (HandshakeServiceAsWritten.CreateCatchAsWritten).
- HandshakeService.CreateHandshake: its ServiceUnavailable answers are the intended ones. As written, each of them is the refused IllegalArgumentException, while its successes and its other errors stay as stated (HandshakeServiceAsWritten.CreateHandshakeAsWritten).
- HandshakeService.ConflictIsWrapped: as written, no conflict is ever built, so there is nothing to wrap (HandshakeServiceAsWritten.RefusedPassesNarrowCatches shows what passes the catches instead).
- HandshakeService.DuplicateNameIsUnavailable: as written, a taken name ends in the refused IllegalArgumentException, answered 500 (HandshakeServiceAsWritten.DuplicateNameAnswers).
- HandshakeService.Unavailable: as written, `create(SERVICE_UNAVAILABLE, ...)` on the handshake factory throws the refused IllegalArgumentException (HandshakeServiceAsWritten.FactoryCreate).
- HandshakeService.UpdateAttempt: as written, the `orElseThrow` supplier (lines 79-81) throws the refused IllegalArgumentException for an absent name, not HANDSHAKE_NOT_FOUND (HandshakeServiceAsWritten.UpdateAttemptAsWritten).
- HandshakeService.UpdateHandshake: as written, an absent name is reported as "Failed to update handshake: Invalid HandshakeExceptionType" (HandshakeServiceAsWritten.UpdateOfUnknownNameAnswers).
- HandshakeService.SingleQuery: as written, its not-found supplier and its catch-all both throw the refused IllegalArgumentException, so every failure it reports is that exception (HandshakeServiceAsWritten.SingleQueryAsWritten).
- HandshakeService.GetHandshakeByName: as written, an unknown name or a failed read is the refused IllegalArgumentException, answered 500 (HandshakeServiceAsWritten.UnknownNameAnswers).
- HandshakeService.GetHandshakeByAcceptor: as written, a user who accepts no handshake, or a failed read, gets the refused IllegalArgumentException (HandshakeServiceAsWritten.UnmatchedUserAnswers).
- HandshakeService.GetHandshakeByInitiator: as written, a user who initiated no handshake, or a failed read, gets the refused IllegalArgumentException (HandshakeServiceAsWritten.UnmatchedUserAnswers).
- HandshakeService.ListQuery: as written, the catch-all of a failed read throws the refused IllegalArgumentException (HandshakeServiceAsWritten.ListQueryAsWritten).
- HandshakeService.GetHandshakesByInitiator: as written, a failed read of `findAllByInitiatorUsername` is answered 500, not 503 (HandshakeServiceAsWritten.FailedListReadAnswers).
- HandshakeService.GetHandshakesByAcceptor: as written, a failed read of `findAllByReceiverUsername` is answered 500, not 503 (HandshakeServiceAsWritten.FailedListReadAnswers).
- HandshakeService.ListQuery: results are taken in store order; `findAllByInitiatorUsername` and `findAllByReceiverUsername` fix no order. HandshakeService.CreateExtendsInitiatorList relies on that order for its sequence equation; its multiset equation does not.
- HandshakeService.CreateExtendsInitiatorList: its sequence equation (the new DTO comes last) holds only under the store order the model chooses for list queries; its multiset equation (the list gains exactly that DTO) holds whatever order the query returns.
- HandshakeService.GetHandshakeByAcceptor: the repository methods are `findByReceiverUsername` and `findAllByReceiverUsername` (`HandshakeRepository.java:20,52`), but the entity has no receiver field. They are read as queries on `acceptorUsername`.
- HandshakeService.GetHandshakesByAcceptor: the repository methods are `findByReceiverUsername` and `findAllByReceiverUsername` (`HandshakeRepository.java:20,52`), but the entity has no receiver field. They are read as queries on `acceptorUsername`.
- HandshakeController.MissingNameIsServerError: as written, the 500 names the refused constant, not the missing handshake (HandshakeServiceAsWritten.UpdateOfUnknownNameAnswers).
- HandshakeController.UnknownNameIsUnavailable: as written, an unknown name is answered 500 "An unexpected error occurred", not 503 (HandshakeServiceAsWritten.UnknownNameAnswers).
- HandshakeController.FailedLookupIsUnavailable: as written, a failed read on the name route is answered 500 "An unexpected error occurred", not 503 (HandshakeServiceAsWritten.GetHandshakeByNameAsWritten).
- ClientResponses.DuplicateHandshakeIsUnavailable: as written, a taken name on create is answered 500 "An unexpected error occurred", not 503 (HandshakeServiceAsWritten.DuplicateNameAnswers).
- Users.SaveUser: entity identity is the username, as the generated id is not modelled. A saved user under a stored name overwrites that row; whether the store accepts the save is the `outcome` input.
- LegacyAuth.Register: a null username or email that passes the checks is answered as a constraint violation with a placeholder cause (`NULL_KEY_CAUSE`). The User entity and the table schema are not part of this model, and the real cause text depends on the database.
- SecureCookies.CreateSecureCookie: total. `ResponseCookie.build()` refuses an empty name, and names or values with characters outside section 4.1.1 of RFC 6265, with IllegalArgumentException. That validation is Spring's and is not modelled; the cookie built here, XSRF-TOKEN with a UUID value, passes it.
- Concurrency between requests: each operation is one sequential step on the store.

## Findings

| source | as written | input that shows it | evidently intended | confidence | as-written member | corrected member |
|---|---|---|---|---|---|---|
| src/main/java/com/handshakr/handshakr_prototype/config/CookieConfig.java:41-49 | `Optional.of(RequestContextHolder.getRequestAttributes())` throws NullPointerException when no request is bound to the thread. The defect is latent: `getSameSiteForRequest` is private and never called, and the class's `@Configuration` (line 15) is commented out | a call with no request bound (`NoRequestBound`) | fall back to SameSite Lax, as the `.orElse(LAX)` "default to secure behavior" says; that needs `Optional.ofNullable` | not executed | SameSitePolicy.SameSiteForRequestAsWritten | SameSitePolicy.SameSiteForRequest |
| src/main/java/com/handshakr/handshakr_prototype/handshake/HandshakeServiceImpl.java:30-69 | `exceptionFactory.create(ExceptionType.CONFLICT, ...)` and `create(ExceptionType.SERVICE_UNAVAILABLE, ...)` go to the HandshakeExceptionFactory, whose `create` throws IllegalArgumentException for any non-HandshakeExceptionType (`HandshakeExceptionFactory.java:26-29`) | a taken name with both users registered, or a failed save | a conflict wrapped as ServiceUnavailable, answered 503 | not executed; the file does not compile as written: `ExceptionType` is not imported, `ExceptionType.CONFLICT` (line 43) is declared by no enum, and `HandshakeExceptionFactory` has no `userNotFound`. The row assumes those are repaired and that the factory field keeps its declared type `HandshakeExceptionFactory` (line 21) | HandshakeServiceAsWritten.CreateHandshakeAsWritten, exhibited by HandshakeServiceAsWritten.DuplicateNameAnswers | HandshakeService.CreateHandshake |
| src/main/java/com/handshakr/handshakr_prototype/handshake/HandshakeServiceImpl.java:79-81 | the not-found supplier calls the same refusing `create`; the catch-all reports its message | an update of a name with no record | a database error around "Handshake not found with identifier: ..." | not executed; the file does not compile as written: `ExceptionType` is not imported, `ExceptionType.CONFLICT` (line 43) is declared by no enum, and `HandshakeExceptionFactory` has no `userNotFound`. The row assumes those are repaired and that the factory field keeps its declared type `HandshakeExceptionFactory` (line 21) | HandshakeServiceAsWritten.UpdateHandshakeAsWritten, exhibited by HandshakeServiceAsWritten.UpdateOfUnknownNameAnswers | HandshakeService.UpdateHandshake |
| src/main/java/com/handshakr/handshakr_prototype/handshake/HandshakeServiceImpl.java:133-139 | the not-found supplier and the catch-all both call the refusing `create` | a lookup of a name with no record | ServiceUnavailable naming the handshake, answered 503 | not executed; the file does not compile as written: `ExceptionType` is not imported, `ExceptionType.CONFLICT` (line 43) is declared by no enum, and `HandshakeExceptionFactory` has no `userNotFound`. The row assumes those are repaired and that the factory field keeps its declared type `HandshakeExceptionFactory` (line 21) | HandshakeServiceAsWritten.GetHandshakeByNameAsWritten, exhibited by HandshakeServiceAsWritten.UnknownNameAnswers | HandshakeService.GetHandshakeByName |
| src/main/java/com/handshakr/handshakr_prototype/handshake/HandshakeServiceImpl.java:99-105 | the same, on the acceptor lookup | a user who accepts no handshake | ServiceUnavailable naming the user, answered 503 | not executed; the file does not compile as written: `ExceptionType` is not imported, `ExceptionType.CONFLICT` (line 43) is declared by no enum, and `HandshakeExceptionFactory` has no `userNotFound`. The row assumes those are repaired and that the factory field keeps its declared type `HandshakeExceptionFactory` (line 21) | HandshakeServiceAsWritten.GetHandshakeByAcceptorAsWritten, exhibited by HandshakeServiceAsWritten.UnmatchedUserAnswers | HandshakeService.GetHandshakeByAcceptor |
| src/main/java/com/handshakr/handshakr_prototype/handshake/HandshakeServiceImpl.java:115-121 | the same, on the initiator lookup | a user who initiated no handshake | ServiceUnavailable naming the user, answered 503 | not executed; the file does not compile as written: `ExceptionType` is not imported, `ExceptionType.CONFLICT` (line 43) is declared by no enum, and `HandshakeExceptionFactory` has no `userNotFound`. The row assumes those are repaired and that the factory field keeps its declared type `HandshakeExceptionFactory` (line 21) | HandshakeServiceAsWritten.GetHandshakeByInitiatorAsWritten, exhibited by HandshakeServiceAsWritten.UnmatchedUserAnswers | HandshakeService.GetHandshakeByInitiator |
| src/main/java/com/handshakr/handshakr_prototype/handshake/HandshakeServiceImpl.java:151-153 | the catch-all of the initiator list calls the refusing `create` | a failed read of the initiator's list | ServiceUnavailable with the read's message, answered 503 | not executed; the file does not compile as written: `ExceptionType` is not imported, `ExceptionType.CONFLICT` (line 43) is declared by no enum, and `HandshakeExceptionFactory` has no `userNotFound`. The row assumes those are repaired and that the factory field keeps its declared type `HandshakeExceptionFactory` (line 21) | HandshakeServiceAsWritten.GetHandshakesByInitiatorAsWritten, exhibited by HandshakeServiceAsWritten.FailedListReadAnswers | HandshakeService.GetHandshakesByInitiator |
| src/main/java/com/handshakr/handshakr_prototype/handshake/HandshakeServiceImpl.java:166-168 | the catch-all of the acceptor list calls the refusing `create` | a failed read of the acceptor's list | ServiceUnavailable with the read's message, answered 503 | not executed; the file does not compile as written: `ExceptionType` is not imported, `ExceptionType.CONFLICT` (line 43) is declared by no enum, and `HandshakeExceptionFactory` has no `userNotFound`. The row assumes those are repaired and that the factory field keeps its declared type `HandshakeExceptionFactory` (line 21) | HandshakeServiceAsWritten.GetHandshakesByAcceptorAsWritten, exhibited by HandshakeServiceAsWritten.FailedListReadAnswers | HandshakeService.GetHandshakesByAcceptor |
