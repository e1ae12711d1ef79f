/** GlobalExceptionHandler: every exception that leaves a controller is
    answered by the handler whose listed class is the nearest superclass of the
    thrown class, with an HTTP status and an error envelope. */
module ErrorHandler {
  import opened Common
  import opened Exceptions
  import opened Envelope
  import EM = ExceptionMessages
  import UF = UserFactory
  import HF = HandshakeFactory

  /** The nine `@ExceptionHandler` methods. */
  datatype Handler =
    | Validation
    | AuthenticationFailure
    | AccountStatusIssue
    | NotFound
    | ConflictIssue
    | Unavailable
    | DatabaseIssue
    | Authorization
    | Fallback

  /** The classes each handler lists. `Exception.class` of the fallback is the
      root of the hierarchy. */
  function Listed(c: ExceptionClass): Option<Handler>
  {
    match c
    case ConstraintViolation | MethodArgumentNotValid | BadRequest => Some(Validation)
    case BadCredentials | UsernameNotFound | InvalidCredentials => Some(AuthenticationFailure)
    case Disabled | Locked | AccountLocked => Some(AccountStatusIssue)
    case InternalAuthenticationService | UserNotFound | HandshakeNotFound
      | HandshakeReceiverNotFound | HandshakeInitiatorNotFound => Some(NotFound)
    case UserAlreadyExists | HandshakeAlreadyExists | Conflict | DataIntegrityViolation => Some(ConflictIssue)
    case ServiceUnavailable => Some(Unavailable)
    case Database => Some(DatabaseIssue)
    case UnauthorizedAccess => Some(Authorization)
    case RuntimeException => Some(Fallback)
    case _ => None
  }

  /** The listed class that decides the handler for `c`: a superclass of `c`
      (itself included) that some handler lists. */
  function Nearest(c: ExceptionClass): (d: ExceptionClass)
    ensures IsA(c, d) && Listed(d).Some?
    decreases Depth(c)
  {
    if Listed(c).Some? then
      c
    else
      ParentIsShallower(c);
      var d := Nearest(Parent(c).value);
      IsAStep(c, d);
      d
  }

  /** The class `Nearest` picks is the nearest listed one: every other listed
      superclass of `c` is also a superclass of it. */
  lemma {:induction false} NearestIsNearest(c: ExceptionClass, e: ExceptionClass)
    requires IsA(c, e) && Listed(e).Some?
    ensures IsA(Nearest(c), e)
    decreases Depth(c)
  {
    if Listed(c).None? {
      ParentIsShallower(c);
      IsAStep(c, e);
      NearestIsNearest(Parent(c).value, e);
    }
  }

  /** The handler Spring picks for an exception of class `c`. */
  function Dispatch(c: ExceptionClass): (h: Handler)
    ensures exists d :: IsA(c, d) && Listed(d) == Some(h)
  {
    Listed(Nearest(c)).value
  }

  /** The handler of every class, written out from the handler annotations
      and the `extends` clauses; `DispatchMatchesTable` shows it is the one
      `Dispatch` picks. */
  function HandlerOf(c: ExceptionClass): Handler
  {
    match c
    case ConstraintViolation | MethodArgumentNotValid | BadRequest => Validation
    case BadCredentials | UsernameNotFound | InvalidCredentials => AuthenticationFailure
    case Disabled | Locked | AccountLocked => AccountStatusIssue
    case InternalAuthenticationService | UserNotFound | HandshakeNotFound
      | HandshakeReceiverNotFound | HandshakeInitiatorNotFound => NotFound
    case UserAlreadyExists | HandshakeAlreadyExists | Conflict | DataIntegrityViolation => ConflictIssue
    case ServiceUnavailable | HandshakeServiceUnavailable | UserServiceUnavailable => Unavailable
    case Database => DatabaseIssue
    case UnauthorizedAccess => Authorization
    case RuntimeException | IllegalArgument | ArrayIndexOutOfBounds | NullPointer | ClassCast | IllegalState
      | Authentication | AccountStatus | AuthenticationService | DataAccess | IncorrectResultSize => Fallback
  }

  /** A listed class keeps its own handler in the table. */
  lemma TableKeepsListedHandlers(c: ExceptionClass)
    requires Listed(c).Some?
    ensures HandlerOf(c) == Listed(c).value
  {
  }

  /** A class no handler lists, directly under the root, falls through to the
      fallback. */
  lemma RootChildrenFallThrough(c: ExceptionClass)
    requires Listed(c).None? && Parent(c) == Some(RuntimeException)
    ensures Dispatch(c) == Fallback
  {
    assert Nearest(c) == Nearest(RuntimeException);
  }

  /** The unlisted classes one level further down fall through as well: their
      parents are unlisted children of the root. */
  lemma DeeperClassesFallThrough(c: ExceptionClass)
    requires c == AccountStatus || c == AuthenticationService || c == IncorrectResultSize
    ensures Dispatch(c) == Fallback
  {
    var p := Parent(c).value;
    assert p == Authentication || p == DataAccess;
    assert Nearest(c) == Nearest(p);
    RootChildrenFallThrough(p);
  }

  /** The two service-unavailable subclasses inherit the 503 handler. */
  lemma UnavailableSubclassesInherit(c: ExceptionClass)
    requires c == HandshakeServiceUnavailable || c == UserServiceUnavailable
    ensures Dispatch(c) == Unavailable
  {
    assert Listed(c).None? && Parent(c) == Some(ServiceUnavailable);
    assert Nearest(c) == Nearest(ServiceUnavailable);
  }

  /** Nearest-superclass dispatch agrees with the written-out table: the
      classes no handler lists fall through to the fallback, except the two
      service-unavailable subclasses, which inherit 503. */
  lemma DispatchMatchesTable(c: ExceptionClass)
    ensures Dispatch(c) == HandlerOf(c)
  {
    if Listed(c).Some? {
      assert Nearest(c) == c;
      TableKeepsListedHandlers(c);
    } else if Parent(c) == Some(RuntimeException) {
      RootChildrenFallThrough(c);
    } else if Parent(c) == Some(ServiceUnavailable) {
      UnavailableSubclassesInherit(c);
    } else {
      DeeperClassesFallThrough(c);
    }
  }

  /** What a handler sends back: the status and the envelope. */
  datatype Response = Response(status: int, body: ApiResponse<string>)

  const BAD_REQUEST: int := 400
  const UNAUTHORIZED: int := 401
  const FORBIDDEN: int := 403
  const NOT_FOUND: int := 404
  const CONFLICT: int := 409
  const INTERNAL_SERVER_ERROR: int := 500
  const SERVICE_UNAVAILABLE: int := 503

  /** The status each handler answers with. */
  function Status(h: Handler): int
  {
    match h
    case Validation => BAD_REQUEST
    case AuthenticationFailure => UNAUTHORIZED
    case AccountStatusIssue | Authorization => FORBIDDEN
    case NotFound => NOT_FOUND
    case ConflictIssue => CONFLICT
    case Unavailable => SERVICE_UNAVAILABLE
    case DatabaseIssue | Fallback => INTERNAL_SERVER_ERROR
  }

  /** The envelope message each handler writes for `ex`. The handlers'
      `instanceof` tests are against classes nothing extends, so they are
      written as class equality (`MessageFollowsInstanceOf`). */
  function Message(h: Handler, ex: Exception): string
  {
    match h
    case Validation =>
      if ex.cls == ConstraintViolation then "Validation failed: " + ex.fieldErrors
      else if ex.cls == MethodArgumentNotValid then "Invalid request: " + ex.fieldErrors
      else ex.message
    case AuthenticationFailure => EM.INVALID_USERNAME_OR_PASSWORD
    case AccountStatusIssue =>
      if ex.cls == Disabled then EM.ACCOUNT_IS_DISABLED else EM.ACCOUNT_IS_LOCKED
    case ConflictIssue =>
      if ex.cls == DataIntegrityViolation then
        "Database error: " + (if ex.cause.Some? then ex.cause.value else "Constraint violation")
      else ex.message
    case NotFound | Unavailable | DatabaseIssue | Authorization => ex.message
    case Fallback => "An unexpected error occurred"
  }

  /** The message tests agree with `instanceof`. */
  lemma MessageFollowsInstanceOf(c: ExceptionClass)
    ensures IsA(c, ConstraintViolation) <==> c == ConstraintViolation
    ensures IsA(c, MethodArgumentNotValid) <==> c == MethodArgumentNotValid
    ensures IsA(c, Disabled) <==> c == Disabled
    ensures IsA(c, DataIntegrityViolation) <==> c == DataIntegrityViolation
  {
    InstanceOfLeaf(c, ConstraintViolation);
    InstanceOfLeaf(c, MethodArgumentNotValid);
    InstanceOfLeaf(c, Disabled);
    InstanceOfLeaf(c, DataIntegrityViolation);
  }

  /** The response to a thrown exception: the envelope repeats the status and
      never carries data. */
  function Handle(ex: Exception): (r: Response)
    ensures r.body.httpStatus == r.status && r.body.data.None?
    ensures r.status in {400, 401, 403, 404, 409, 500, 503}
  {
    var h := HandlerOf(ex.cls);
    Response(Status(h), Error(Message(h, ex), Status(h)))
  }

  /** The response is the one of the handler Spring dispatches to. */
  lemma HandleFollowsDispatch(ex: Exception)
    ensures Handle(ex).status == Status(Dispatch(ex.cls))
    ensures Handle(ex).body.message == Message(Dispatch(ex.cls), ex)
  {
    DispatchMatchesTable(ex.cls);
  }

  /** Each listed class is answered by its own handler, even when a superclass
      is listed elsewhere. */
  lemma {:induction false} ListedClassesUseTheirHandler(c: ExceptionClass)
    requires Listed(c).Some?
    ensures Dispatch(c) == Listed(c).value
  {
  }

  /** A class nobody lists is answered as its parent is. */
  lemma {:induction false} UnlistedClassesInherit(c: ExceptionClass)
    requires Listed(c).None?
    ensures Parent(c).Some? && Dispatch(c) == Dispatch(Parent(c).value)
  {
    ParentIsShallower(c);
  }

  /** The validation classes give 400; BadRequest keeps its message, the other
      two prefix their field errors. */
  lemma ValidationResponses(ex: Exception)
    requires ex.cls in {ConstraintViolation, MethodArgumentNotValid, BadRequest}
    ensures Handle(ex).status == 400
    ensures ex.cls == BadRequest ==> Handle(ex).body.message == ex.message
    ensures ex.cls == ConstraintViolation ==> Handle(ex).body.message == "Validation failed: " + ex.fieldErrors
    ensures ex.cls == MethodArgumentNotValid ==> Handle(ex).body.message == "Invalid request: " + ex.fieldErrors
  {
    assert !IsA(BadRequest, ConstraintViolation) && !IsA(BadRequest, MethodArgumentNotValid);
    assert !IsA(MethodArgumentNotValid, ConstraintViolation);
  }

  /** Bad credentials, unknown usernames and invalid credentials all give 401
      with one fixed message, whatever the exception said. */
  lemma AuthenticationFailureResponses(ex: Exception)
    requires ex.cls in {BadCredentials, UsernameNotFound, InvalidCredentials}
    ensures Handle(ex) == Response(401, Error("Invalid username or password", 401))
  {
  }

  /** A locked account (AccountLockedException) gives 403 "Account is locked",
      although it is also an InvalidCredentialsException, which alone would
      give 401. */
  lemma LockedAccountIsForbidden(message: string)
    ensures IsA(AccountLocked, InvalidCredentials)
    ensures Status(Dispatch(InvalidCredentials)) == 401
    ensures Handle(Raise(AccountLocked, message)) == Response(403, Error("Account is locked", 403))
  {
    HierarchyFacts();
    DispatchMatchesTable(InvalidCredentials);
    assert !IsA(AccountLocked, Disabled) by {
      assert !IsA(Authentication, Disabled) by {
        assert !IsA(RuntimeException, Disabled);
      }
      assert !IsA(BadCredentials, Disabled);
      assert !IsA(InvalidCredentials, Disabled);
    }
  }

  /** Spring's Disabled and Locked exceptions give 403 with their own fixed
      messages. */
  lemma AccountStatusResponses(message: string)
    ensures Handle(Raise(Disabled, message)) == Response(403, Error("Account is disabled", 403))
    ensures Handle(Raise(Locked, message)) == Response(403, Error("Account is locked", 403))
  {
    assert !IsA(Locked, Disabled);
  }

  /** The not-found classes give 404 with the exception's own message. */
  lemma NotFoundResponses(ex: Exception)
    requires ex.cls in {InternalAuthenticationService, UserNotFound, HandshakeNotFound,
                        HandshakeReceiverNotFound, HandshakeInitiatorNotFound}
    ensures Handle(ex) == Response(404, Error(ex.message, 404))
  {
  }

  /** The service-unavailable classes give 503 with the exception's own message. */
  lemma UnavailableResponses(ex: Exception)
    requires ex.cls in {ServiceUnavailable, HandshakeServiceUnavailable, UserServiceUnavailable}
    ensures Handle(ex) == Response(503, Error(ex.message, 503))
  {
  }

  /** The database class gives 500 and the unauthorized-access class 403, each
      with the exception's own message. */
  lemma DatabaseAndAuthorizationResponses(ex: Exception)
    requires ex.cls == Database || ex.cls == UnauthorizedAccess
    ensures ex.cls == Database ==> Handle(ex) == Response(500, Error(ex.message, 500))
    ensures ex.cls == UnauthorizedAccess ==> Handle(ex) == Response(403, Error(ex.message, 403))
  {
  }

  /** The conflict classes give 409: a data-integrity violation reports its
      cause, or "Constraint violation" when it has none. */
  lemma IntegrityViolationResponse(ex: Exception)
    requires ex.cls == DataIntegrityViolation
    ensures ex.cause.Some? ==> Handle(ex) == Response(409, Error("Database error: " + ex.cause.value, 409))
    ensures ex.cause.None? ==> Handle(ex) == Response(409, Error("Database error: " + "Constraint violation", 409))
  {
  }

  /** The other conflict classes give 409 and keep their message. */
  lemma ConflictResponses(ex: Exception)
    requires ex.cls in {UserAlreadyExists, HandshakeAlreadyExists, Conflict}
    ensures Handle(ex) == Response(409, Error(ex.message, 409))
  {
    assert !IsA(UserAlreadyExists, DataIntegrityViolation);
    assert !IsA(HandshakeAlreadyExists, DataIntegrityViolation);
    assert !IsA(Conflict, DataIntegrityViolation);
  }

  /** Everything no handler lists, directly or through a superclass, gives 500
      with a fixed message that hides the exception's own. */
  lemma FallbackResponses(ex: Exception)
    requires ex.cls in {RuntimeException, IllegalArgument, ArrayIndexOutOfBounds, NullPointer, ClassCast, IllegalState,
                        Authentication, AccountStatus, AuthenticationService, DataAccess, IncorrectResultSize}
    ensures Handle(ex) == Response(500, Error("An unexpected error occurred", 500))
  {
  }

  /** No handled exception looks like a success: the handler's envelope has
      an error status and no payload, while `success` always says 200. */
  lemma HandledIsNeverSuccess<T>(ex: Exception, message: string, data: T)
    ensures Handle(ex).status != Success(message, data).httpStatus
    ensures Handle(ex).status != SuccessEmpty<T>(message).httpStatus
    ensures Handle(ex).body != Success(message, message) && Handle(ex).body != SuccessEmpty(message)
  {
  }

  /** The handshake service's unavailable exception is answered with 503 and
      its message; the handshake factory builds it with the given message. */
  lemma HandshakeServiceDownIsUnavailable(message: string)
    ensures HF.ServiceUnavailable(HF.Built, message).Ok?
    ensures Handle(HF.ServiceUnavailable(HF.Built, message).value) == Response(503, Error(message, 503))
  {
    HF.BuiltIsComplete();
    var e := HF.ServiceUnavailable(HF.Built, message).value;
    assert e == Raise(HandshakeServiceUnavailable, message);
  }

  /** accountDisabled of the user factory builds an InvalidCredentials
      exception, so it is answered with 401 "Invalid username or password", not
      with the 403 "Account is disabled" of Spring's DisabledException. */
  lemma FactoryAccountDisabledIsUnauthorized()
    ensures UF.AccountDisabled(UF.Built).Ok?
    ensures Handle(UF.AccountDisabled(UF.Built).value) == Response(401, Error("Invalid username or password", 401))
  {
    UF.BuiltIsComplete();
  }
}
