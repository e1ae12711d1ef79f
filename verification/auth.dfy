/** The requests of the two authentication services and what Spring's
    AuthenticationManager answers. */
module AuthRequests {
  import opened Common
  import E = Exceptions
  import U = Users

  /** RegisterRequest(email, username, password). The controller binds it
      without validation, so any field may be `null`. */
  datatype RegisterRequest = RegisterRequest(email: Option<string>, username: Option<string>, password: Option<string>)

  /** LoginRequest(username, password); either may be `null`. */
  datatype LoginRequest = LoginRequest(username: Option<string>, password: Option<string>)

  /** `manager.authenticate(token)`: the authenticated principal, or the
      AuthenticationException it throws. The manager and the user details
      service behind it are not modelled; their answer is an input. */
  datatype ManagerOutcome = Authenticated(principal: U.User) | Rejected(failure: E.Exception)

  /** The shortest password either service accepts, in UTF-16 code units. */
  const MIN_PASSWORD_LENGTH: nat := 8

  const PASSWORD_TOO_SHORT := "Password must be at least 8 characters long"

  /** The NullPointerException `request.password().length()` throws for a
      `null` password. */
  const NULL_PASSWORD := "Cannot invoke \"String.length()\" because the return value of \"RegisterRequest.password()\" is null"

  /** The password is given and long enough. */
  predicate PasswordAccepted(password: Option<string>)
  {
    password.Some? && Utf16Length(password.value) >= MIN_PASSWORD_LENGTH
  }
}

/** security/auth/AuthServiceImpl: registration through UserServiceImpl and
    authentication that re-raises Spring's exceptions with fixed messages. */
module SecureAuth {
  import opened Common
  import opened Exceptions
  import opened ExceptionMessages
  import opened Repository
  import opened AuthRequests
  import opened Users
  import UF = UserFactory
  import UT = UserExceptionTypes
  import FactorySupport

  /** Every check of `register` passes: both keys are given and free, both
      existence reads answer, and the password is given and long enough. */
  predicate PassesChecks(store: UserStore, req: RegisterRequest, usernameRead: ReadStatus, emailRead: ReadStatus)
  {
    && !NullOrBlank(req.username) && usernameRead.Answered? && !HasUsername(store, req.username.value)
    && !NullOrBlank(req.email) && emailRead.Answered? && !HasEmail(store, req.email.value)
    && PasswordAccepted(req.password)
  }

  /** The user `register` saves: both keys and the encoded password. */
  function NewUser(req: RegisterRequest, encode: string -> string): User
    requires req.username.Some? && req.email.Some? && req.password.Some?
  {
    User(req.username.value, req.email.value, encode(req.password.value))
  }

  /** register: username taken, then email taken, then a missing or short
      password, then save the user with the encoded password. The existence
      checks and the save go through UserServiceImpl, whose own guards and
      error translation apply; `usernameRead`, `emailRead` and `save` are the
      store's answers. */
  function Register(store: UserStore, req: RegisterRequest, encode: string -> string,
                    usernameRead: ReadStatus, emailRead: ReadStatus, save: SaveOutcome): (r: Result<(User, UserStore), Exception>)
    ensures NullOrBlank(req.username) ==> r == Err(Raise(BadRequest, "Username cannot be empty"))
    ensures !NullOrBlank(req.username) && usernameRead.ReadFailed? ==>
      r == Err(Raise(Database, "Failed to check username existence"))
    ensures !NullOrBlank(req.username) && usernameRead.Answered? && HasUsername(store, req.username.value) ==>
      r == Err(Raise(UserAlreadyExists, AlreadyTaken(req.username.value)))
    ensures (!NullOrBlank(req.username) && usernameRead.Answered? && !HasUsername(store, req.username.value)
             && NullOrBlank(req.email)) ==>
      r == Err(Raise(BadRequest, "Email cannot be empty"))
    ensures (!NullOrBlank(req.username) && usernameRead.Answered? && !HasUsername(store, req.username.value)
             && !NullOrBlank(req.email) && emailRead.Answered? && HasEmail(store, req.email.value)) ==>
      r == Err(Raise(UserAlreadyExists, AlreadyTaken(req.email.value)))
    ensures (!NullOrBlank(req.username) && usernameRead.Answered? && !HasUsername(store, req.username.value)
             && !NullOrBlank(req.email) && emailRead.Answered? && !HasEmail(store, req.email.value)
             && req.password.None?) ==>
      r == Err(Raise(NullPointer, NULL_PASSWORD))
    ensures (!NullOrBlank(req.username) && usernameRead.Answered? && !HasUsername(store, req.username.value)
             && !NullOrBlank(req.email) && emailRead.Answered? && !HasEmail(store, req.email.value)
             && req.password.Some? && Utf16Length(req.password.value) < MIN_PASSWORD_LENGTH) ==>
      r == Err(Raise(BadRequest, PASSWORD_TOO_SHORT))
    ensures PassesChecks(store, req, usernameRead, emailRead) && save.IntegrityViolation? ==>
      r == Err(Raise(Database, "Database constraint violation: " + save.cause))
    ensures PassesChecks(store, req, usernameRead, emailRead) && save.SaveFailed? ==>
      r == Err(Raise(Database, "Failed to save user: " + save.message))
    ensures r.Ok? <==> PassesChecks(store, req, usernameRead, emailRead) && save.Saved?
    ensures r.Ok? ==> r.value.0 == NewUser(req, encode) && r.value.1 == store + [r.value.0]
  {
    UF.BuiltIsComplete();
    match UsernameExists(store, req.username, usernameRead)
    case Err(e) => Err(e)
    case Ok(true) =>
      Err(Thrown(UF.Create(UF.Built, Some(FactorySupport.UserConstant(UT.UserAlreadyExists)), [req.username.value])))
    case Ok(false) =>
      match EmailExists(store, req.email, emailRead)
      case Err(e) => Err(e)
      case Ok(true) =>
        Err(Thrown(UF.Create(UF.Built, Some(FactorySupport.UserConstant(UT.UserAlreadyExists)), [req.email.value])))
      case Ok(false) =>
        if req.password.None? then Err(Raise(NullPointer, NULL_PASSWORD))
        else if Utf16Length(req.password.value) < MIN_PASSWORD_LENGTH then Err(Thrown(UF.BadRequest(UF.Built, PASSWORD_TOO_SHORT)))
        else
          var saved := SaveUser(store, Some(NewUser(req, encode)), save);
          if saved.Err? && saved.error.cls == DataIntegrityViolation then
            Err(Thrown(UF.BadRequest(UF.Built, "Failed to register user: " + saved.error.message)))
          else saved
  }

  /** The order of the checks: whatever the email and password, a taken
      username is reported first; a missing password is reported only when
      both keys are free, and never as a bad request. */
  lemma RegisterCheckOrder(store: UserStore, req: RegisterRequest, encode: string -> string,
                           emailRead: ReadStatus, save: SaveOutcome)
    ensures !NullOrBlank(req.username) && HasUsername(store, req.username.value) ==>
      Register(store, req, encode, Answered, emailRead, save).error.message == AlreadyTaken(req.username.value)
    ensures req.password.None? && Register(store, req, encode, Answered, emailRead, save).Err? ==>
      Register(store, req, encode, Answered, emailRead, save).error.cls != BadRequest
      || NullOrBlank(req.username) || NullOrBlank(req.email)
  {
  }

  /** UserServiceImpl.saveUser already turns a constraint violation into a
      database error, so the bad-request translation of `register` never
      fires: the caller sees the database error. */
  lemma IntegrityViolationIsDatabaseError(store: UserStore, req: RegisterRequest, encode: string -> string, cause: string)
    requires PassesChecks(store, req, Answered, Answered)
    ensures Register(store, req, encode, Answered, Answered, IntegrityViolation(cause))
      == Err(Raise(Database, "Database constraint violation: " + cause))
  {
  }

  /** A registered user is stored with the encoded password, keeps the table
      unique, and is found again by name. */
  lemma RegisterThenFind(store: UserStore, req: RegisterRequest, encode: string -> string)
    requires Unique(store) && PassesChecks(store, req, Answered, Answered)
    ensures Register(store, req, encode, Answered, Answered, Saved).Ok?
    ensures Unique(Register(store, req, encode, Answered, Answered, Saved).value.1)
    ensures FindByUsername(Register(store, req, encode, Answered, Answered, Saved).value.1, req.username)
      == Ok(NewUser(req, encode))
  {
    SaveThenFind(store, NewUser(req, encode));
  }

  /** authenticate: the principal on success; bad credentials (with their
      subclasses), disabled and locked accounts are re-raised as the same
      Spring class with a fixed message; anything else propagates. */
  function Authenticate(outcome: ManagerOutcome): (r: Result<User, Exception>)
    ensures outcome.Authenticated? ==> r == Ok(outcome.principal)
    ensures outcome.Rejected? && IsA(outcome.failure.cls, BadCredentials) ==>
      r == Err(Raise(BadCredentials, "Invalid credentials"))
    ensures outcome.Rejected? && IsA(outcome.failure.cls, Disabled) ==>
      r == Err(Raise(Disabled, "Account is disabled"))
    ensures outcome.Rejected? && IsA(outcome.failure.cls, Locked) ==>
      r == Err(Raise(Locked, "Account is locked"))
    ensures (outcome.Rejected? && !IsA(outcome.failure.cls, BadCredentials)
             && !IsA(outcome.failure.cls, Disabled) && !IsA(outcome.failure.cls, Locked)) ==>
      r == Err(outcome.failure)
  {
    match outcome
    case Authenticated(p) => Ok(p)
    case Rejected(e) =>
      CatchBranchesDisjoint(e.cls);
      if IsA(e.cls, BadCredentials) then Err(Raise(BadCredentials, "Invalid credentials"))
      else if IsA(e.cls, Disabled) then Err(Raise(Disabled, "Account is disabled"))
      else if IsA(e.cls, Locked) then Err(Raise(Locked, "Account is locked"))
      else Err(e)
  }

  /** Every translated failure stays in the class it was caught as. */
  lemma AuthenticateKeepsCategory(e: Exception)
    ensures forall c :: c in {BadCredentials, Disabled, Locked} && IsA(e.cls, c) ==>
      IsA(Authenticate(Rejected(e)).error.cls, c)
  {
  }
}

/** auth/AuthServiceImpl: the older variant, which reads the repository
    directly and guards the login request. */
module LegacyAuth {
  import opened Common
  import opened Exceptions
  import opened ExceptionMessages
  import opened Repository
  import opened AuthRequests
  import opened Users
  import GF = GeneralFactory
  import G = GeneralExceptionTypes
  import SA = SecureAuth

  /** `existsByUsername(username)`: a `null` name matches no stored row. */
  predicate NameTaken(store: UserStore, username: Option<string>)
  {
    username.Some? && HasUsername(store, username.value)
  }

  /** `existsByEmail(email)`: a `null` email matches no stored row. */
  predicate EmailTaken(store: UserStore, email: Option<string>)
  {
    email.Some? && HasEmail(store, email.value)
  }

  /** Every check of `register` passes: both reads answer, neither key is
      taken, and the password is given and long enough. */
  predicate PassesChecks(store: UserStore, req: RegisterRequest, usernameRead: ReadStatus, emailRead: ReadStatus)
  {
    && usernameRead.Answered? && !NameTaken(store, req.username)
    && emailRead.Answered? && !EmailTaken(store, req.email)
    && PasswordAccepted(req.password)
  }

  /** The root cause the store gives when a `null` key reaches the user table's
      not-null columns; its exact text depends on the database. */
  const NULL_KEY_CAUSE := "null value violates not-null constraint"

  /** register: the same ordered checks, against the repository itself; a
      failing read propagates as the store's exception, a missing password
      throws NullPointerException, and a constraint violation on save becomes
      a bad request naming its root cause. */
  function Register(store: UserStore, req: RegisterRequest, encode: string -> string,
                    usernameRead: ReadStatus, emailRead: ReadStatus, save: SaveOutcome): (r: Result<(User, UserStore), Exception>)
    ensures usernameRead.ReadFailed? ==> r == Err(DataAccessError(usernameRead.message))
    ensures usernameRead.Answered? && NameTaken(store, req.username) ==>
      r == Err(Raise(UserAlreadyExists, AlreadyTaken(req.username.value)))
    ensures (usernameRead.Answered? && !NameTaken(store, req.username) && emailRead.ReadFailed?) ==>
      r == Err(DataAccessError(emailRead.message))
    ensures (usernameRead.Answered? && !NameTaken(store, req.username)
             && emailRead.Answered? && EmailTaken(store, req.email)) ==>
      r == Err(Raise(UserAlreadyExists, AlreadyTaken(req.email.value)))
    ensures (usernameRead.Answered? && !NameTaken(store, req.username)
             && emailRead.Answered? && !EmailTaken(store, req.email) && req.password.None?) ==>
      r == Err(Raise(NullPointer, NULL_PASSWORD))
    ensures (usernameRead.Answered? && !NameTaken(store, req.username)
             && emailRead.Answered? && !EmailTaken(store, req.email)
             && req.password.Some? && Utf16Length(req.password.value) < MIN_PASSWORD_LENGTH) ==>
      r == Err(Raise(BadRequest, PASSWORD_TOO_SHORT))
    ensures PassesChecks(store, req, usernameRead, emailRead) && (req.username.None? || req.email.None?) ==>
      r == Err(Raise(BadRequest, "Failed to register user: " + NULL_KEY_CAUSE))
    ensures (PassesChecks(store, req, usernameRead, emailRead) && req.username.Some? && req.email.Some?
             && save.IntegrityViolation?) ==>
      r == Err(Raise(BadRequest, "Failed to register user: " + save.cause))
    ensures (PassesChecks(store, req, usernameRead, emailRead) && req.username.Some? && req.email.Some?
             && save.SaveFailed?) ==>
      r == Err(DataAccessError(save.message))
    ensures r.Ok? <==>
      PassesChecks(store, req, usernameRead, emailRead) && req.username.Some? && req.email.Some? && save.Saved?
    ensures r.Ok? ==> r.value == (SA.NewUser(req, encode), store + [SA.NewUser(req, encode)])
  {
    GF.BuiltIsComplete();
    if usernameRead.ReadFailed? then Err(DataAccessError(usernameRead.message))
    else if NameTaken(store, req.username) then Err(Thrown(GF.Create(GF.Built, Some(G.UserAlreadyExists), [req.username.value])))
    else if emailRead.ReadFailed? then Err(DataAccessError(emailRead.message))
    else if EmailTaken(store, req.email) then Err(Thrown(GF.Create(GF.Built, Some(G.UserAlreadyExists), [req.email.value])))
    else if req.password.None? then Err(Raise(NullPointer, NULL_PASSWORD))
    else if Utf16Length(req.password.value) < MIN_PASSWORD_LENGTH then Err(Thrown(GF.BadRequest(GF.Built, PASSWORD_TOO_SHORT)))
    else if req.username.None? || req.email.None? then
      Err(Thrown(GF.BadRequest(GF.Built, "Failed to register user: " + NULL_KEY_CAUSE)))
    else
      var u := SA.NewUser(req, encode);
      match save
      case Saved => Ok((u, store + [u]))
      case IntegrityViolation(cause) => Err(Thrown(GF.BadRequest(GF.Built, "Failed to register user: " + cause)))
      case SaveFailed(m) => Err(DataAccessError(m))
  }

  /** A user registered on a unique table keeps it unique and is found again
      under both keys, with the encoded password. */
  lemma RegisterThenFind(store: UserStore, req: RegisterRequest, encode: string -> string)
    requires Unique(store) && PassesChecks(store, req, Answered, Answered)
    requires !NullOrBlank(req.username) && !NullOrBlank(req.email)
    ensures Register(store, req, encode, Answered, Answered, Saved).Ok?
    ensures Unique(Register(store, req, encode, Answered, Answered, Saved).value.1)
    ensures FindByUsername(Register(store, req, encode, Answered, Answered, Saved).value.1, req.username)
      == Ok(SA.NewUser(req, encode))
    ensures FindByEmail(Register(store, req, encode, Answered, Answered, Saved).value.1, req.email)
      == Ok(SA.NewUser(req, encode))
  {
    SaveThenFind(store, SA.NewUser(req, encode));
  }

  /** Both services agree on a request with non-blank keys whose reads
      answer and whose save succeeds: the same user, the same table. */
  lemma RegisterAgreesWithSecure(store: UserStore, req: RegisterRequest, encode: string -> string)
    requires !NullOrBlank(req.username) && !NullOrBlank(req.email)
    ensures Register(store, req, encode, Answered, Answered, Saved)
      == SA.Register(store, req, encode, Answered, Answered, Saved)
  {
  }

  /** Without the user service in between, a blank username is not refused:
      it is looked up like any other. */
  lemma BlankUsernameReachesTheStore(store: UserStore, req: RegisterRequest, encode: string -> string)
    requires NullOrBlank(req.username) && NameTaken(store, req.username)
    ensures Register(store, req, encode, Answered, Answered, Saved) == Err(Raise(UserAlreadyExists, AlreadyTaken(req.username.value)))
    ensures SA.Register(store, req, encode, Answered, Answered, Saved) == Err(Raise(BadRequest, "Username cannot be empty"))
  {
  }

  const USERNAME_REQUIRED := "Username is required"
  const PASSWORD_REQUIRED := "Password is required"
  const ACCOUNT_LOCKED_MESSAGE := "Your account has been locked. Please contact support."
  const AUTH_SERVICE_DOWN_MESSAGE := "Authentication service unavailable. Please try again later."

  /** Both credentials are present, so the manager is asked. */
  predicate Consulted(req: LoginRequest)
  {
    !NullOrBlank(req.username) && !NullOrBlank(req.password)
  }

  /** authenticate: a null or blank username, then password, is refused before
      the manager is consulted; bad credentials become InvalidCredentials,
      a disabled account ACCOUNT_DISABLED, and a locked account or a failing
      authentication service a bad request. */
  function Authenticate(req: LoginRequest, outcome: ManagerOutcome): (r: Result<User, Exception>)
    ensures NullOrBlank(req.username) ==> r == Err(Raise(BadRequest, USERNAME_REQUIRED))
    ensures !NullOrBlank(req.username) && NullOrBlank(req.password) ==> r == Err(Raise(BadRequest, PASSWORD_REQUIRED))
    ensures r.Ok? <==> Consulted(req) && outcome.Authenticated?
    ensures r.Ok? ==> r.value == outcome.principal
    ensures Consulted(req) && outcome.Rejected? && IsA(outcome.failure.cls, BadCredentials) ==>
      r == Err(Raise(InvalidCredentials, INVALID_USERNAME_OR_PASSWORD))
    ensures Consulted(req) && outcome.Rejected? && IsA(outcome.failure.cls, Disabled) ==>
      r == Err(Raise(InvalidCredentials, ACCOUNT_IS_DISABLED))
    ensures Consulted(req) && outcome.Rejected? && IsA(outcome.failure.cls, Locked) ==>
      r == Err(Raise(BadRequest, ACCOUNT_LOCKED_MESSAGE))
    ensures Consulted(req) && outcome.Rejected? && IsA(outcome.failure.cls, AuthenticationService) ==>
      r == Err(Raise(BadRequest, AUTH_SERVICE_DOWN_MESSAGE))
    ensures (Consulted(req) && outcome.Rejected? && !IsA(outcome.failure.cls, BadCredentials)
             && !IsA(outcome.failure.cls, Disabled) && !IsA(outcome.failure.cls, Locked)
             && !IsA(outcome.failure.cls, AuthenticationService)) ==>
      r == Err(outcome.failure)
  {
    GF.BuiltIsComplete();
    if NullOrBlank(req.username) then Err(Thrown(GF.BadRequest(GF.Built, USERNAME_REQUIRED)))
    else if NullOrBlank(req.password) then Err(Thrown(GF.BadRequest(GF.Built, PASSWORD_REQUIRED)))
    else
      match outcome
      case Authenticated(p) => Ok(p)
      case Rejected(e) => Err(Translate(e))
  }

  /** The catch clauses of `authenticate`, in their order. */
  function Translate(e: Exception): (x: Exception)
    ensures IsA(e.cls, BadCredentials) ==> x == Raise(InvalidCredentials, INVALID_USERNAME_OR_PASSWORD)
    ensures IsA(e.cls, Disabled) ==> x == Raise(InvalidCredentials, ACCOUNT_IS_DISABLED)
    ensures IsA(e.cls, Locked) ==> x == Raise(BadRequest, ACCOUNT_LOCKED_MESSAGE)
    ensures IsA(e.cls, AuthenticationService) ==> x == Raise(BadRequest, AUTH_SERVICE_DOWN_MESSAGE)
    ensures (!IsA(e.cls, BadCredentials) && !IsA(e.cls, Disabled) && !IsA(e.cls, Locked)
             && !IsA(e.cls, AuthenticationService)) ==> x == e
  {
    GF.BuiltIsComplete();
    CatchBranchesDisjoint(e.cls);
    if IsA(e.cls, BadCredentials) then Thrown(GF.InvalidCredentials(GF.Built))
    else if IsA(e.cls, Disabled) then Thrown(GF.Create(GF.Built, Some(G.AccountDisabled), []))
    else if IsA(e.cls, Locked) then Thrown(GF.BadRequest(GF.Built, ACCOUNT_LOCKED_MESSAGE))
    else if IsA(e.cls, AuthenticationService) then Thrown(GF.BadRequest(GF.Built, AUTH_SERVICE_DOWN_MESSAGE))
    else e
  }
}
