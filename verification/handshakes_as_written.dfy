/** handshake/HandshakeServiceImpl with its `exceptionFactory.create(ExceptionType.X, ...)`
    calls read as written. The field they go through is a HandshakeExceptionFactory,
    whose `create` refuses every constant that is not a HandshakeExceptionType
    with IllegalArgumentException "Invalid HandshakeExceptionType" before any
    exception is built. So each of those calls throws that IllegalArgumentException
    instead of the not-found, conflict or service-unavailable exception it names,
    and the catch-all of each method meets it again. HandshakeService models the
    evidently intended behaviour; this module models the text and relates the two. */
module HandshakeServiceAsWritten {
  import opened Common
  import opened Exceptions
  import opened ExceptionMessages
  import opened Repository
  import opened HandshakeModel
  import opened HandshakeStore
  import opened FactorySupport
  import opened HandshakeService
  import U = Users
  import HF = HandshakeFactory
  import G = GeneralExceptionTypes
  import EH = ErrorHandler
  import Envelope

  /** `ExceptionType.CONFLICT`: no enum declares it, and whatever it would be,
      it is not a HandshakeExceptionType. */
  const CONFLICT: AnyEnum := OtherConstant("CONFLICT")

  /** The one exception every refused `create` throws. */
  const REFUSED: Exception := Raise(IllegalArgument, "Invalid HandshakeExceptionType")

  /** `exceptionFactory.create(t, params)` on the service's handshake factory,
      as the exception that leaves the call. */
  function FactoryCreate(t: AnyEnum, params: seq<string>): (e: Exception)
    ensures !t.HandshakeConstant? ==> e == REFUSED
  {
    Thrown(HF.Create(HF.Built, Some(t), params))
  }

  /** The refused exception is neither a missing user nor an integrity
      violation, so a catch clause for either lets it pass. */
  lemma RefusedPassesNarrowCatches()
    ensures !IsA(IllegalArgument, UserNotFound) && !IsA(IllegalArgument, DataIntegrityViolation)
    ensures !IsA(Conflict, UserNotFound) && !IsA(Conflict, DataIntegrityViolation)
  {
    assert !IsA(RuntimeException, UserNotFound) && !IsA(RuntimeException, DataIntegrityViolation);
  }

  // ----- createHandshake -----

  /** The `try` body of createHandshake as written: the duplicate-name branch
      throws the refused exception. */
  function CreateAttemptAsWritten(users: U.UserStore, store: Store, req: CreateRequest,
                                  existsRead: ReadStatus, save: SaveOutcome): (r: Result<Store, Exception>)
    ensures r.Ok? <==> CreateAttempt(users, store, req, existsRead, save).Ok?
    ensures r.Ok? ==> r == CreateAttempt(users, store, req, existsRead, save)
    ensures (CreateAttempt(users, store, req, existsRead, save).Err?
             && CreateAttempt(users, store, req, existsRead, save).error.cls == Conflict) ==> r == Err(REFUSED)
    ensures (CreateAttempt(users, store, req, existsRead, save).Err?
             && CreateAttempt(users, store, req, existsRead, save).error.cls != Conflict)
            ==> r == CreateAttempt(users, store, req, existsRead, save)
  {
    match U.FindByUsername(users, Some(req.initiatorUsername))
    case Err(e) => Err(e)
    case Ok(initiator) =>
      match U.FindByUsername(users, Some(req.acceptorUsername))
      case Err(e) => Err(e)
      case Ok(acceptor) =>
        if existsRead.ReadFailed? then Err(DataAccessError(existsRead.message))
        else if HasName(store, req.handshakeName) then
          Err(FactoryCreate(CONFLICT, ["Handshake with name '" + req.handshakeName + "' already exists"]))
        else if !save.Saved? then Err(SaveError(save))
        else
          Ok(store + [NewHandshake(req.handshakeName, req.encryptedDetails, req.createdDate,
                                   req.initiatorUsername, req.acceptorUsername, initiator, acceptor)])
  }

  /** The catch clauses of createHandshake as written: the catch-all's own
      `create(SERVICE_UNAVAILABLE, ...)` throws the refused exception. */
  function CreateCatchAsWritten(req: CreateRequest, e: Exception): (w: Exception)
    ensures IsA(e.cls, UserNotFound) || IsA(e.cls, DataIntegrityViolation) ==> w == CreateCatch(req, e)
    ensures !IsA(e.cls, UserNotFound) && !IsA(e.cls, DataIntegrityViolation) ==> w == REFUSED
  {
    if IsA(e.cls, UserNotFound) then
      UserNotFoundRaised(if Contains(e.message, "username") then req.acceptorUsername else req.initiatorUsername)
    else if IsA(e.cls, DataIntegrityViolation) then
      Thrown(HF.DatabaseError(HF.Built, "Failed to create handshake: " + MostSpecificCause(e)))
    else FactoryCreate(GeneralConstant(G.ServiceUnavailable), ["Failed to create handshake: " + e.message])
  }

  /** createHandshake as written. It stores exactly what the intended version
      stores and fails exactly when it fails; where the intended version
      reports service-unavailable (a taken name, a failed read, a failed save)
      the text throws the refused exception, and every other failure is the same. */
  function CreateHandshakeAsWritten(users: U.UserStore, store: Store, request: Option<CreateRequest>,
                                    existsRead: ReadStatus, save: SaveOutcome): (r: Result<Store, Exception>)
    ensures r.Ok? <==> CreateHandshake(users, store, request, existsRead, save).Ok?
    ensures r.Ok? ==> r == CreateHandshake(users, store, request, existsRead, save)
    ensures (CreateHandshake(users, store, request, existsRead, save).Err?
             && CreateHandshake(users, store, request, existsRead, save).error.cls == ServiceUnavailable)
            ==> r == Err(REFUSED)
    ensures (CreateHandshake(users, store, request, existsRead, save).Err?
             && CreateHandshake(users, store, request, existsRead, save).error.cls != ServiceUnavailable)
            ==> r == CreateHandshake(users, store, request, existsRead, save)
  {
    HF.BuiltIsComplete();
    RefusedPassesNarrowCatches();
    match request
    case None => Err(Thrown(HF.BadRequest(HF.Built, "Handshake request cannot be null")))
    case Some(req) =>
      match CreateAttemptAsWritten(users, store, req, existsRead, save)
      case Ok(s) => Ok(s)
      case Err(e) => Err(CreateCatchAsWritten(req, e))
  }

  /** A taken name, as written: the conflict is never built, the catch-all
      cannot build its wrapper either, and the client gets the handler's
      generic 500 where the intended version answers 503 with the reason. */
  lemma DuplicateNameAnswers(users: U.UserStore, store: Store, req: CreateRequest, save: SaveOutcome)
    requires U.FindByUsername(users, Some(req.initiatorUsername)).Ok?
    requires U.FindByUsername(users, Some(req.acceptorUsername)).Ok?
    requires HasName(store, req.handshakeName)
    ensures CreateHandshakeAsWritten(users, store, Some(req), Answered, save) == Err(REFUSED)
    ensures EH.Handle(CreateHandshakeAsWritten(users, store, Some(req), Answered, save).error)
      == EH.Response(500, Envelope.Error("An unexpected error occurred", 500))
    ensures EH.Handle(CreateHandshake(users, store, Some(req), Answered, save).error)
      == EH.Response(503, Envelope.Error("Failed to create handshake: " + ("Handshake with name '" + req.handshakeName + "' already exists"), 503))
  {
    DuplicateNameIsUnavailable(users, store, req, save);
    var intended := CreateHandshake(users, store, Some(req), Answered, save);
    assert intended.error.cls == ServiceUnavailable;
    EH.FallbackResponses(REFUSED);
    EH.UnavailableResponses(intended.error);
  }

  // ----- updateHandshake -----

  /** The `try` body of updateHandshake as written: the `orElseThrow` supplier
      throws the refused exception. */
  function UpdateAttemptAsWritten(store: Store, name: string, req: UpdateRequest, read: ReadStatus, save: SaveOutcome): (r: Result<Store, Exception>)
    ensures read.ReadFailed? || HasName(store, name) ==> r == UpdateAttempt(store, name, req, read, save)
    ensures read.Answered? && !HasName(store, name) ==> r == Err(REFUSED)
  {
    if read.ReadFailed? then Err(DataAccessError(read.message)) else
    match FindOne(store, ByName(name))
    case Err(e) => Err(e)
    case Ok(None) => Err(FactoryCreate(GeneralConstant(G.HandshakeNotFound), [name]))
    case Ok(Some(h)) =>
      var h' := Updated(h, req.updatedDate, req.status);
      if save.Saved? then Ok(ReplaceNamed(store, name, h')) else Err(SaveError(save))
  }

  /** updateHandshake as written: the same as the intended version except for
      a name with no record, which is reported as a database error about the
      refused constant rather than about the missing handshake. */
  function UpdateHandshakeAsWritten(store: Store, request: Option<UpdateRequest>, read: ReadStatus, save: SaveOutcome): (r: Result<Store, Exception>)
    ensures (request.None? || request.value.handshakeName.None? || read.ReadFailed?
             || HasName(store, request.value.handshakeName.value))
            ==> r == UpdateHandshake(store, request, read, save)
    ensures (request.Some? && request.value.handshakeName.Some? && read.Answered?
             && !HasName(store, request.value.handshakeName.value))
            ==> r == Err(Raise(Database, "Failed to update handshake: " + REFUSED.message))
  {
    HF.BuiltIsComplete();
    if request.None? || request.value.handshakeName.None? then
      Err(Thrown(HF.BadRequest(HF.Built, "Update request and handshake name cannot be null")))
    else
      var req := request.value;
      var name := req.handshakeName.value;
      match UpdateAttemptAsWritten(store, name, req, read, save)
      case Ok(s) => Ok(s)
      case Err(e) => Err(Thrown(HF.DatabaseError(HF.Built, "Failed to update handshake: " + e.message)))
  }

  /** An update of a name with no record, as written: 500 with a message about
      the refused constant, where the intended version answers 500 naming the
      missing handshake. */
  lemma UpdateOfUnknownNameAnswers(store: Store, req: UpdateRequest, save: SaveOutcome)
    requires req.handshakeName.Some? && !HasName(store, req.handshakeName.value)
    ensures EH.Handle(UpdateHandshakeAsWritten(store, Some(req), Answered, save).error)
      == EH.Response(500, Envelope.Error("Failed to update handshake: " + REFUSED.message, 500))
    ensures EH.Handle(UpdateHandshake(store, Some(req), Answered, save).error)
      == EH.Response(500, Envelope.Error("Failed to update handshake: " + HandshakeNotFoundWith(req.handshakeName.value), 500))
  {
    EH.DatabaseAndAuthorizationResponses(UpdateHandshakeAsWritten(store, Some(req), Answered, save).error);
    EH.DatabaseAndAuthorizationResponses(UpdateHandshake(store, Some(req), Answered, save).error);
  }

  // ----- queries -----

  /** A single-result query as written: the DTO of the one match; any other
      outcome ends in the refused exception, since the not-found supplier and
      the catch-all both go through the refusing `create`. */
  function SingleQueryAsWritten(store: Store, p: Handshake -> bool, read: ReadStatus, params: seq<string>, prefix: string): (r: Result<HandshakeDto, Exception>)
    requires |params| > 0
    ensures r.Ok? ==> r == SingleQuery(store, p, read, params, prefix)
    ensures r.Ok? <==> read.Answered? && Count(store, p) == 1
    ensures r.Err? ==> r.error == REFUSED
  {
    if read.ReadFailed? then Err(FactoryCreate(GeneralConstant(G.ServiceUnavailable), [prefix + read.message])) else
    match FindOne(store, p)
    case Err(e) => Err(FactoryCreate(GeneralConstant(G.ServiceUnavailable), [prefix + e.message]))
    case Ok(None) =>
      var e := FactoryCreate(GeneralConstant(G.HandshakeNotFound), params);
      Err(FactoryCreate(GeneralConstant(G.ServiceUnavailable), [prefix + e.message]))
    case Ok(Some(h)) => Ok(From(h))
  }

  /** getHandshakeByName as written: a found handshake and a blank name are
      answered as intended; every other failure is the refused exception. */
  function GetHandshakeByNameAsWritten(store: Store, name: Option<string>, read: ReadStatus): (r: Result<HandshakeDto, Exception>)
    ensures NullOrBlank(name) || GetHandshakeByName(store, name, read).Ok? ==> r == GetHandshakeByName(store, name, read)
    ensures !NullOrBlank(name) && GetHandshakeByName(store, name, read).Err? ==> r == Err(REFUSED)
  {
    HF.BuiltIsComplete();
    if NullOrBlank(name) then Err(Thrown(HF.BadRequest(HF.Built, "Handshake name cannot be empty")))
    else SingleQueryAsWritten(store, ByName(name.value), read, [name.value], "Failed to retrieve handshake by name: ")
  }

  /** getHandshakeByAcceptor as written. */
  function GetHandshakeByAcceptorAsWritten(store: Store, username: Option<string>, read: ReadStatus): (r: Result<HandshakeDto, Exception>)
    ensures NullOrBlank(username) || GetHandshakeByAcceptor(store, username, read).Ok? ==> r == GetHandshakeByAcceptor(store, username, read)
    ensures !NullOrBlank(username) && GetHandshakeByAcceptor(store, username, read).Err? ==> r == Err(REFUSED)
  {
    match ValidateUsername(username)
    case Err(e) => Err(e)
    case Ok(_) => SingleQueryAsWritten(store, ByAcceptor(username.value), read, [username.value, "acceptor username"],
                                      "Failed to retrieve handshake by acceptor: ")
  }

  /** getHandshakeByInitiator as written. */
  function GetHandshakeByInitiatorAsWritten(store: Store, username: Option<string>, read: ReadStatus): (r: Result<HandshakeDto, Exception>)
    ensures NullOrBlank(username) || GetHandshakeByInitiator(store, username, read).Ok? ==> r == GetHandshakeByInitiator(store, username, read)
    ensures !NullOrBlank(username) && GetHandshakeByInitiator(store, username, read).Err? ==> r == Err(REFUSED)
  {
    match ValidateUsername(username)
    case Err(e) => Err(e)
    case Ok(_) => SingleQueryAsWritten(store, ByInitiator(username.value), read, [username.value, "initiator username"],
                                      "Failed to retrieve handshake by initiator: ")
  }

  /** An unknown name, as written: 500 with the handler's generic message,
      where the intended version answers 503 naming the handshake. */
  lemma UnknownNameAnswers(store: Store, name: string)
    requires !IsBlank(name) && !HasName(store, name)
    ensures EH.Handle(GetHandshakeByNameAsWritten(store, Some(name), Answered).error)
      == EH.Response(500, Envelope.Error("An unexpected error occurred", 500))
    ensures EH.Handle(GetHandshakeByName(store, Some(name), Answered).error)
      == EH.Response(503, Envelope.Error("Failed to retrieve handshake by name: " + HandshakeNotFoundWith(name), 503))
  {
    EH.FallbackResponses(REFUSED);
    EH.UnavailableResponses(GetHandshakeByName(store, Some(name), Answered).error);
  }

  /** A user with no handshake on the queried side, as written: 500 with the
      generic message on both single-handshake routes, where the intended
      version answers 503 naming the user. */
  lemma UnmatchedUserAnswers(store: Store, username: string)
    requires !IsBlank(username)
    ensures Count(store, ByAcceptor(username)) == 0 ==>
      && EH.Handle(GetHandshakeByAcceptorAsWritten(store, Some(username), Answered).error)
           == EH.Response(500, Envelope.Error("An unexpected error occurred", 500))
      && EH.Handle(GetHandshakeByAcceptor(store, Some(username), Answered).error)
           == EH.Response(503, Envelope.Error("Failed to retrieve handshake by acceptor: " + HandshakeNotFoundWith(username), 503))
    ensures Count(store, ByInitiator(username)) == 0 ==>
      && EH.Handle(GetHandshakeByInitiatorAsWritten(store, Some(username), Answered).error)
           == EH.Response(500, Envelope.Error("An unexpected error occurred", 500))
      && EH.Handle(GetHandshakeByInitiator(store, Some(username), Answered).error)
           == EH.Response(503, Envelope.Error("Failed to retrieve handshake by initiator: " + HandshakeNotFoundWith(username), 503))
  {
    EH.FallbackResponses(REFUSED);
    if Count(store, ByAcceptor(username)) == 0 {
      EH.UnavailableResponses(GetHandshakeByAcceptor(store, Some(username), Answered).error);
    }
    if Count(store, ByInitiator(username)) == 0 {
      EH.UnavailableResponses(GetHandshakeByInitiator(store, Some(username), Answered).error);
    }
  }

  /** A list query as written: the DTOs as intended, or the refused exception
      when the read fails. */
  function ListQueryAsWritten(store: Store, p: Handshake -> bool, read: ReadStatus, prefix: string): (r: Result<seq<HandshakeDto>, Exception>)
    ensures read.Answered? ==> r == ListQuery(store, p, read, prefix)
    ensures read.ReadFailed? ==> r == Err(REFUSED)
  {
    match read
    case Answered => ListQuery(store, p, read, prefix)
    case ReadFailed(m) => Err(FactoryCreate(GeneralConstant(G.ServiceUnavailable), [prefix + DataAccessError(m).message]))
  }

  /** getHandshakesByInitiator as written. */
  function GetHandshakesByInitiatorAsWritten(store: Store, username: Option<string>, read: ReadStatus): (r: Result<seq<HandshakeDto>, Exception>)
    ensures NullOrBlank(username) || read.Answered? ==> r == GetHandshakesByInitiator(store, username, read)
    ensures !NullOrBlank(username) && read.ReadFailed? ==> r == Err(REFUSED)
  {
    match ValidateUsername(username)
    case Err(e) => Err(e)
    case Ok(_) => ListQueryAsWritten(store, ByInitiator(username.value), read, "Failed to retrieve handshakes by initiator: ")
  }

  /** getHandshakesByAcceptor as written. */
  function GetHandshakesByAcceptorAsWritten(store: Store, username: Option<string>, read: ReadStatus): (r: Result<seq<HandshakeDto>, Exception>)
    ensures NullOrBlank(username) || read.Answered? ==> r == GetHandshakesByAcceptor(store, username, read)
    ensures !NullOrBlank(username) && read.ReadFailed? ==> r == Err(REFUSED)
  {
    match ValidateUsername(username)
    case Err(e) => Err(e)
    case Ok(_) => ListQueryAsWritten(store, ByAcceptor(username.value), read, "Failed to retrieve handshakes by acceptor: ")
  }

  /** A failed list read, as written: 500 with the generic message on both
      list routes, where the intended version answers 503 with the read's own
      message. */
  lemma FailedListReadAnswers(store: Store, username: string, message: string)
    requires !IsBlank(username)
    ensures EH.Handle(GetHandshakesByAcceptorAsWritten(store, Some(username), ReadFailed(message)).error)
      == EH.Response(500, Envelope.Error("An unexpected error occurred", 500))
    ensures EH.Handle(GetHandshakesByAcceptor(store, Some(username), ReadFailed(message)).error)
      == EH.Response(503, Envelope.Error("Failed to retrieve handshakes by acceptor: " + message, 503))
    ensures EH.Handle(GetHandshakesByInitiatorAsWritten(store, Some(username), ReadFailed(message)).error)
      == EH.Response(500, Envelope.Error("An unexpected error occurred", 500))
    ensures EH.Handle(GetHandshakesByInitiator(store, Some(username), ReadFailed(message)).error)
      == EH.Response(503, Envelope.Error("Failed to retrieve handshakes by initiator: " + message, 503))
  {
    EH.FallbackResponses(REFUSED);
    EH.UnavailableResponses(GetHandshakesByAcceptor(store, Some(username), ReadFailed(message)).error);
    EH.UnavailableResponses(GetHandshakesByInitiator(store, Some(username), ReadFailed(message)).error);
  }
}
