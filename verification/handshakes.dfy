/** The handshake entity, its status, and the DTO the queries return. */
module HandshakeModel {
  import opened Common
  import U = Users

  /** HandshakeStatus, in declaration order. */
  datatype HandshakeStatus = Created | Pending | Accepted | Cancelled | Completed | Failed

  /** java.util.Date / java.time.Instant as an opaque instant; the clock is
      never read here, dates come from the requests. */
  datatype Timestamp = Timestamp(epochMillis: int)

  /** The persisted fields of a handshake. The generated id is not modelled. */
  datatype Handshake = Handshake(
    handshakeName: string,
    encryptedDetails: string,
    createdDate: Timestamp,
    mostRecentUpdateDate: Option<Timestamp>,
    status: HandshakeStatus,
    initiatorUsername: string,
    acceptorUsername: string,
    initiator: U.User,
    acceptor: U.User)

  /** The seven-argument constructor: each argument lands in the field of the
      same name; the status keeps its initializer CREATED and the update date
      stays unset. */
  function NewHandshake(handshakeName: string, encryptedDetails: string, createdDate: Timestamp,
                        initiatorUsername: string, acceptorUsername: string,
                        initiator: U.User, acceptor: U.User): (h: Handshake)
    ensures h.status == Created && h.mostRecentUpdateDate.None?
    ensures h.handshakeName == handshakeName && h.encryptedDetails == encryptedDetails
    ensures h.createdDate == createdDate
    ensures h.initiatorUsername == initiatorUsername && h.acceptorUsername == acceptorUsername
    ensures h.initiator == initiator && h.acceptor == acceptor
  {
    Handshake(handshakeName, encryptedDetails, createdDate, None, Created,
              initiatorUsername, acceptorUsername, initiator, acceptor)
  }

  /** HandshakeDto. */
  datatype HandshakeDto = HandshakeDto(
    handshakeName: string,
    encryptedDetails: string,
    signedDate: Timestamp,
    completedDate: Option<Timestamp>,
    handshakeStatus: HandshakeStatus,
    initiatorUsername: string,
    acceptorUsername: string)

  /** HandshakeDto.from: the signed date is the creation date, the completed
      date the most recent update, and the acceptor is the entity's acceptor
      (the source's `getReceiverUsername` names no field of the entity; the
      acceptor username is the only candidate). */
  function From(h: Handshake): (d: HandshakeDto)
    ensures d.handshakeName == h.handshakeName && d.encryptedDetails == h.encryptedDetails
    ensures d.handshakeStatus == h.status
    ensures d.signedDate == h.createdDate && d.completedDate == h.mostRecentUpdateDate
    ensures d.initiatorUsername == h.initiatorUsername && d.acceptorUsername == h.acceptorUsername
  {
    HandshakeDto(h.handshakeName, h.encryptedDetails, h.createdDate, h.mostRecentUpdateDate,
                 h.status, h.initiatorUsername, h.acceptorUsername)
  }

  /** The entity after `setMostRecentUpdateDate` and `setHandshakeStatus`. */
  function Updated(h: Handshake, date: Timestamp, status: HandshakeStatus): (h': Handshake)
    ensures h'.status == status && h'.mostRecentUpdateDate == Some(date)
    ensures h'.(status := h.status, mostRecentUpdateDate := h.mostRecentUpdateDate) == h
  {
    h.(status := status, mostRecentUpdateDate := Some(date))
  }

  /** The DTO of an updated handshake differs from the old DTO in the status
      and the completed date only. */
  lemma FromAfterUpdate(h: Handshake, date: Timestamp, status: HandshakeStatus)
    ensures From(Updated(h, date, status)) == From(h).(handshakeStatus := status, completedDate := Some(date))
  {
  }

  /** A fresh handshake shows as CREATED with no completed date, signed on
      its creation date. */
  lemma FromNewHandshake(name: string, details: string, date: Timestamp, iu: string, au: string, i: U.User, a: U.User)
    ensures From(NewHandshake(name, details, date, iu, au, i, a))
      == HandshakeDto(name, details, date, None, Created, iu, au)
  {
  }
}

/** The handshake table: records with unique names, in insertion order. */
module HandshakeStore {
  import opened Common
  import opened HandshakeModel

  type Store = seq<Handshake>

  predicate HasName(store: Store, name: string)
  {
    exists i :: 0 <= i < |store| && store[i].handshakeName == name
  }

  /** The unique constraint on `handshakeName`. */
  predicate UniqueNames(store: Store)
  {
    forall i, j :: 0 <= i < j < |store| ==> store[i].handshakeName != store[j].handshakeName
  }

  function ByName(name: string): Handshake -> bool
  {
    (h: Handshake) => h.handshakeName == name
  }

  function ByInitiator(username: string): Handshake -> bool
  {
    (h: Handshake) => h.initiatorUsername == username
  }

  function ByAcceptor(username: string): Handshake -> bool
  {
    (h: Handshake) => h.acceptorUsername == username
  }

  /** Under the unique constraint a name matches at most one record. */
  lemma UniqueNameMatchesOnce(store: Store, name: string)
    ensures UniqueNames(store) ==> Count(store, ByName(name)) <= 1
  {
    if UniqueNames(store) {
      CountAtMostOne(store, ByName(name));
    }
  }

  /** Every record named `name` replaced by `h`, every other record kept. */
  function ReplaceNamed(store: Store, name: string, h: Handshake): (r: Store)
    ensures |r| == |store|
    ensures forall i :: 0 <= i < |store| ==> r[i] == (if store[i].handshakeName == name then h else store[i])
  {
    Map(store, (x: Handshake) => if x.handshakeName == name then h else x)
  }

  /** Appending a record under a new name keeps the names unique. */
  lemma AppendKeepsUnique(store: Store, h: Handshake)
    ensures UniqueNames(store) && !HasName(store, h.handshakeName) ==> UniqueNames(store + [h])
  {
    if !UniqueNames(store) || HasName(store, h.handshakeName) {
      return;
    }
    var s := store + [h];
    forall i, j | 0 <= i < j < |s|
      ensures s[i].handshakeName != s[j].handshakeName
    {
      assert s[i] == store[i];
      if j < |store| {
        assert s[j] == store[j];
      }
    }
  }

  /** Replacing a record by one with the same name keeps the names unique. */
  lemma ReplaceKeepsUnique(store: Store, name: string, h: Handshake)
    requires UniqueNames(store) && h.handshakeName == name
    ensures UniqueNames(ReplaceNamed(store, name, h))
  {
    var r := ReplaceNamed(store, name, h);
    forall i, j | 0 <= i < j < |r|
      ensures r[i].handshakeName != r[j].handshakeName
    {
      assert r[i].handshakeName == store[i].handshakeName;
      assert r[j].handshakeName == store[j].handshakeName;
    }
  }
}

/** handshake/HandshakeServiceImpl as evidently intended. Every
    `exceptionFactory.create(ExceptionType.X, ...)` in the source names an
    ExceptionType the file does not import; here it builds the constant of that
    name in exceptions/types/ExceptionType with the constant's own `create`,
    with CONFLICT (which that enum lacks) an abstract ConflictException
    carrying its first parameter. HandshakeServiceAsWritten models the same
    calls as they are written, through the handshake factory that refuses them. */
module HandshakeService {
  import opened Common
  import opened Exceptions
  import opened ExceptionMessages
  import opened Repository
  import opened HandshakeModel
  import opened HandshakeStore
  import U = Users
  import HF = HandshakeFactory
  import G = GeneralExceptionTypes

  /** CreateHandshakeRequest; the request itself may be `null`. */
  datatype CreateRequest = CreateRequest(
    handshakeName: string,
    encryptedDetails: string,
    createdDate: Timestamp,
    initiatorUsername: string,
    acceptorUsername: string)

  /** UpdateHandshakeRequest; the request and its name may be `null`. */
  datatype UpdateRequest = UpdateRequest(handshakeName: Option<string>, updatedDate: Timestamp, status: HandshakeStatus)

  /** `ExceptionType.CONFLICT`: not declared by the enum; an abstract conflict
      carrying its first parameter as the message. */
  function ConflictRaised(p: string): (e: Exception)
    ensures e.cls == Conflict && e.message == p
  {
    Raise(Conflict, p)
  }

  /** `ExceptionType.X.create(params)` for a constant that cannot fail. */
  function General(t: G.ExceptionType, params: seq<string>): (e: Exception)
    requires !G.ReadsFirstParam(t) || |params| > 0
    ensures e.cls == G.DeclaredClass(t)
  {
    G.Create(t, params).value
  }

  /** HandshakeExceptionFactory has no `userNotFound`; it is modelled as the
      user-not-found exception of the general enum. */
  function UserNotFoundRaised(identifier: string): (e: Exception)
    ensures e == Raise(UserNotFound, UserNotFoundWith(identifier))
  {
    General(G.UserNotFound, [identifier])
  }

  /** The catch-all wrapper of the queries and of `createHandshake`. */
  function Unavailable(prefix: string, e: Exception): (w: Exception)
    ensures w == Raise(ServiceUnavailable, prefix + e.message)
  {
    General(G.ServiceUnavailable, [prefix + e.message])
  }

  /** `getMostSpecificCause().getMessage()`. */
  function MostSpecificCause(e: Exception): string
  {
    if e.cause.Some? then e.cause.value else e.message
  }

  /** The exception a failed save throws into the service. */
  function SaveError(outcome: SaveOutcome): (e: Exception)
    requires !outcome.Saved?
    ensures outcome.IntegrityViolation? ==> e.cls == DataIntegrityViolation && MostSpecificCause(e) == outcome.cause
    ensures outcome.SaveFailed? ==> e == DataAccessError(outcome.message)
  {
    match outcome
    case IntegrityViolation(cause) => Exception(DataIntegrityViolation, "could not execute statement", Some(cause), "")
    case SaveFailed(m) => DataAccessError(m)
  }

  // ----- createHandshake -----

  /** The body of the `try` in createHandshake: both lookups, the name check,
      the save. `Err` is what it throws. */
  function CreateAttempt(users: U.UserStore, store: Store, req: CreateRequest,
                         existsRead: ReadStatus, save: SaveOutcome): (r: Result<Store, Exception>)
    ensures r.Ok? <==>
      (U.FindByUsername(users, Some(req.initiatorUsername)).Ok? && U.FindByUsername(users, Some(req.acceptorUsername)).Ok?
       && existsRead.Answered? && !HasName(store, req.handshakeName) && save.Saved?)
    ensures r.Ok? ==> r.value == store + [NewHandshake(req.handshakeName, req.encryptedDetails, req.createdDate,
                                                      req.initiatorUsername, req.acceptorUsername,
                                                      U.FindByUsername(users, Some(req.initiatorUsername)).value,
                                                      U.FindByUsername(users, Some(req.acceptorUsername)).value)]
    ensures U.FindByUsername(users, Some(req.initiatorUsername)).Err? ==>
      r == Err(U.FindByUsername(users, Some(req.initiatorUsername)).error)
  {
    match U.FindByUsername(users, Some(req.initiatorUsername))
    case Err(e) => Err(e)
    case Ok(initiator) =>
      match U.FindByUsername(users, Some(req.acceptorUsername))
      case Err(e) => Err(e)
      case Ok(acceptor) =>
        if existsRead.ReadFailed? then Err(DataAccessError(existsRead.message))
        else if HasName(store, req.handshakeName) then
          Err(ConflictRaised("Handshake with name '" + req.handshakeName + "' already exists"))
        else if !save.Saved? then Err(SaveError(save))
        else
          Ok(store + [NewHandshake(req.handshakeName, req.encryptedDetails, req.createdDate,
                                   req.initiatorUsername, req.acceptorUsername, initiator, acceptor)])
  }

  /** The three catch clauses of createHandshake, in order. A missing user is
      reported as the acceptor when the caught message contains "username",
      else as the initiator. */
  function CreateCatch(req: CreateRequest, e: Exception): (w: Exception)
    ensures IsA(e.cls, UserNotFound) ==>
      w == UserNotFoundRaised(if Contains(e.message, "username") then req.acceptorUsername else req.initiatorUsername)
    ensures !IsA(e.cls, UserNotFound) && IsA(e.cls, DataIntegrityViolation) ==>
      w == Raise(Database, "Failed to create handshake: " + MostSpecificCause(e))
    ensures !IsA(e.cls, UserNotFound) && !IsA(e.cls, DataIntegrityViolation) ==>
      w == Raise(ServiceUnavailable, "Failed to create handshake: " + e.message)
  {
    if IsA(e.cls, UserNotFound) then
      UserNotFoundRaised(if Contains(e.message, "username") then req.acceptorUsername else req.initiatorUsername)
    else if IsA(e.cls, DataIntegrityViolation) then
      Thrown(HF.DatabaseError(HF.Built, "Failed to create handshake: " + MostSpecificCause(e)))
    else Unavailable("Failed to create handshake: ", e)
  }

  /** createHandshake: a `null` request is refused outside the `try`; anything
      thrown inside it goes through the catch clauses. The result is the new
      table; the table is unchanged whenever an exception is thrown. */
  function CreateHandshake(users: U.UserStore, store: Store, request: Option<CreateRequest>,
                           existsRead: ReadStatus, save: SaveOutcome): (r: Result<Store, Exception>)
    ensures request.None? ==> r == Err(Raise(BadRequest, "Handshake request cannot be null"))
    ensures r.Ok? ==> request.Some? && |r.value| == |store| + 1 && r.value[..|store|] == store
    ensures r.Ok? ==>
      var h := r.value[|store|];
      && h.handshakeName == request.value.handshakeName && h.encryptedDetails == request.value.encryptedDetails
      && h.createdDate == request.value.createdDate && h.status == Created && h.mostRecentUpdateDate.None?
      && h.initiatorUsername == request.value.initiatorUsername && h.acceptorUsername == request.value.acceptorUsername
    ensures r.Ok? ==> !HasName(store, request.value.handshakeName)
    ensures UniqueNames(store) && r.Ok? ==> UniqueNames(r.value)
  {
    HF.BuiltIsComplete();
    match request
    case None => Err(Thrown(HF.BadRequest(HF.Built, "Handshake request cannot be null")))
    case Some(req) =>
      match CreateAttempt(users, store, req, existsRead, save)
      case Ok(s) =>
        assert s[..|store|] == store;
        AppendKeepsUnique(store, s[|store|]);
        Ok(s)
      case Err(e) => Err(CreateCatch(req, e))
  }

  /** Whatever the attempt throws reaches the caller through the catch clauses. */
  lemma FailedAttemptIsCaught(users: U.UserStore, store: Store, req: CreateRequest, existsRead: ReadStatus, save: SaveOutcome)
    requires CreateAttempt(users, store, req, existsRead, save).Err?
    ensures CreateHandshake(users, store, Some(req), existsRead, save)
      == Err(CreateCatch(req, CreateAttempt(users, store, req, existsRead, save).error))
  {
  }

  /** Both participants are looked up before the name check: an unknown
      initiator is reported even when the name is also taken. */
  lemma MissingUserBeforeDuplicate(users: U.UserStore, store: Store, req: CreateRequest, save: SaveOutcome)
    requires !IsBlank(req.initiatorUsername) && !U.HasUsername(users, req.initiatorUsername)
    requires HasName(store, req.handshakeName)
    ensures CreateHandshake(users, store, Some(req), Answered, save).Err?
    ensures CreateHandshake(users, store, Some(req), Answered, save).error.cls == UserNotFound
  {
    var e := Raise(UserNotFound, UserNotFoundWith(req.initiatorUsername));
    assert CreateAttempt(users, store, req, Answered, save) == Err(e);
    FailedAttemptIsCaught(users, store, req, Answered, save);
    assert IsA(UserNotFound, UserNotFound);
  }

  /** The name check runs after both lookups and before the save. */
  lemma AttemptRejectsDuplicate(users: U.UserStore, store: Store, req: CreateRequest, save: SaveOutcome)
    requires U.FindByUsername(users, Some(req.initiatorUsername)).Ok?
    requires U.FindByUsername(users, Some(req.acceptorUsername)).Ok?
    requires HasName(store, req.handshakeName)
    ensures CreateAttempt(users, store, req, Answered, save)
      == Err(ConflictRaised("Handshake with name '" + req.handshakeName + "' already exists"))
  {
  }

  /** A conflict is neither a missing user nor an integrity violation, so the
      catch-all wraps it. */
  lemma ConflictIsWrapped(req: CreateRequest, message: string)
    ensures CreateCatch(req, ConflictRaised(message)) == Raise(ServiceUnavailable, "Failed to create handshake: " + message)
  {
    assert !IsA(Conflict, UserNotFound) && !IsA(Conflict, DataIntegrityViolation) by {
      assert !IsA(RuntimeException, UserNotFound) && !IsA(RuntimeException, DataIntegrityViolation);
    }
  }

  /** A taken name never adds a record, and the caller sees the catch-all
      service-unavailable wrapper around the conflict, not a conflict. */
  lemma DuplicateNameIsUnavailable(users: U.UserStore, store: Store, req: CreateRequest, save: SaveOutcome)
    requires U.FindByUsername(users, Some(req.initiatorUsername)).Ok?
    requires U.FindByUsername(users, Some(req.acceptorUsername)).Ok?
    requires HasName(store, req.handshakeName)
    ensures CreateHandshake(users, store, Some(req), Answered, save)
      == Err(Raise(ServiceUnavailable, "Failed to create handshake: " + ("Handshake with name '" + req.handshakeName + "' already exists")))
  {
    var message := "Handshake with name '" + req.handshakeName + "' already exists";
    AttemptRejectsDuplicate(users, store, req, save);
    FailedAttemptIsCaught(users, store, req, Answered, save);
    ConflictIsWrapped(req, message);
  }

  /** A UserNotFound message mentions "username" only through the missing
      name itself; when it does not, an unknown acceptor is reported under the
      initiator's name. */
  lemma MissingAcceptorBlamesInitiator(users: U.UserStore, store: Store, req: CreateRequest,
                                       existsRead: ReadStatus, save: SaveOutcome)
    requires U.FindByUsername(users, Some(req.initiatorUsername)).Ok?
    requires !IsBlank(req.acceptorUsername) && !U.HasUsername(users, req.acceptorUsername)
    requires !Contains(UserNotFoundWith(req.acceptorUsername), "username")
    ensures CreateHandshake(users, store, Some(req), existsRead, save)
      == Err(Raise(UserNotFound, UserNotFoundWith(req.initiatorUsername)))
  {
  }

  /** The message of bob's missing-user exception has no letter 'a', so it
      does not contain "username". */
  lemma BobMessageLacksUsername()
    ensures !Contains(UserNotFoundWith("bob"), "username")
  {
    var msg := UserNotFoundWith("bob");
    assert 'a' !in msg;
    if Contains(msg, "username") {
      ContainsHasChar(msg, "username", 5);
    }
  }

  /** alice is found in the one-user table that holds her, and bob is not. */
  lemma AliceOnly(alice: U.User)
    requires alice == U.User("alice", "alice@example.com", "{pbkdf2}x")
    ensures U.FindByUsername([alice], Some("alice")).Ok?
    ensures !IsBlank("bob") && !U.HasUsername([alice], "bob")
  {
    assert [alice][0].username == "alice";
    assert U.HasUsername([alice], "alice");
    assert !IsBlank("alice") by {
      assert !IsWhitespace("alice"[0]);
    }
    assert !IsBlank("bob") by {
      assert !IsWhitespace("bob"[0]);
    }
    assert "alice"[0] != "bob"[0];
  }

  /** An instance: bob is not registered, alice is, and the failure names alice. */
  lemma MissingAcceptorExample(store: Store, date: Timestamp)
    ensures
      var alice := U.User("alice", "alice@example.com", "{pbkdf2}x");
      var req := CreateRequest("deal", "cipher", date, "alice", "bob");
      CreateHandshake([alice], store, Some(req), Answered, Saved)
        == Err(Raise(UserNotFound, UserNotFoundWith("alice")))
  {
    var alice := U.User("alice", "alice@example.com", "{pbkdf2}x");
    var req := CreateRequest("deal", "cipher", date, "alice", "bob");
    AliceOnly(alice);
    BobMessageLacksUsername();
    MissingAcceptorBlamesInitiator([alice], store, req, Answered, Saved);
  }

  // ----- updateHandshake -----

  /** updateHandshake: a `null` request or name is refused; otherwise the one
      record of that name gets the new status and update date, with no check
      of the old status; every failure inside the `try`, the failed read and
      the missing record included, surfaces as a database error. */
  function UpdateHandshake(store: Store, request: Option<UpdateRequest>, read: ReadStatus, save: SaveOutcome): (r: Result<Store, Exception>)
    ensures request.None? || request.value.handshakeName.None? ==>
      r == Err(Raise(BadRequest, "Update request and handshake name cannot be null"))
    ensures r.Ok? ==>
      && request.Some? && request.value.handshakeName.Some? && read.Answered?
      && Count(store, ByName(request.value.handshakeName.value)) == 1 && save.Saved?
    ensures r.Ok? ==>
      exists h :: (h in store && h.handshakeName == request.value.handshakeName.value
        && r.value == ReplaceNamed(store, h.handshakeName, Updated(h, request.value.updatedDate, request.value.status)))
    ensures (request.Some? && request.value.handshakeName.Some? && read.ReadFailed?) ==>
      r == Err(Raise(Database, "Failed to update handshake: " + read.message))
    ensures (request.Some? && request.value.handshakeName.Some? && read.Answered?
             && !HasName(store, request.value.handshakeName.value)) ==>
      r == Err(Raise(Database, "Failed to update handshake: " + HandshakeNotFoundWith(request.value.handshakeName.value)))
    ensures (UniqueNames(store) && request.Some? && request.value.handshakeName.Some? && read.Answered?
             && HasName(store, request.value.handshakeName.value) && save.Saved?) ==> r.Ok?
    ensures UniqueNames(store) && r.Ok? ==> UniqueNames(r.value)
  {
    HF.BuiltIsComplete();
    if request.None? || request.value.handshakeName.None? then
      Err(Thrown(HF.BadRequest(HF.Built, "Update request and handshake name cannot be null")))
    else
      var req := request.value;
      var name := req.handshakeName.value;
      UniqueNameMatchesOnce(store, name);
      match UpdateAttempt(store, name, req, read, save)
      case Ok(s) => Ok(s)
      case Err(e) => Err(Thrown(HF.DatabaseError(HF.Built, "Failed to update handshake: " + e.message)))
  }

  /** The body of the `try` in updateHandshake: the read, the lookup, the save. */
  function UpdateAttempt(store: Store, name: string, req: UpdateRequest, read: ReadStatus, save: SaveOutcome): (r: Result<Store, Exception>)
    ensures r.Ok? <==> read.Answered? && Count(store, ByName(name)) == 1 && save.Saved?
    ensures r.Ok? ==>
      exists h :: h in store && h.handshakeName == name && r.value == ReplaceNamed(store, name, Updated(h, req.updatedDate, req.status))
    ensures read.ReadFailed? ==> r == Err(DataAccessError(read.message))
    ensures read.Answered? && !HasName(store, name) ==> r == Err(Raise(HandshakeNotFound, HandshakeNotFoundWith(name)))
    ensures UniqueNames(store) && r.Ok? ==> UniqueNames(r.value)
  {
    if read.ReadFailed? then Err(DataAccessError(read.message)) else
    match FindOne(store, ByName(name))
    case Err(e) => Err(e)
    case Ok(None) => Err(General(G.HandshakeNotFound, [name]))
    case Ok(Some(h)) =>
      var h' := Updated(h, req.updatedDate, req.status);
      if UniqueNames(store) then
        ReplaceKeepsUnique(store, name, h');
        if save.Saved? then Ok(ReplaceNamed(store, name, h')) else Err(SaveError(save))
      else
        if save.Saved? then Ok(ReplaceNamed(store, name, h')) else Err(SaveError(save))
  }

  /** Any status may follow any other: the update does not look at the old one. */
  lemma AnyStatusMayFollowAny(store: Store, name: string, date: Timestamp, next: HandshakeStatus)
    requires UniqueNames(store) && HasName(store, name)
    ensures UpdateHandshake(store, Some(UpdateRequest(Some(name), date, next)), Answered, Saved).Ok?
  {
  }

  // ----- queries -----

  /** validateUsername. */
  function ValidateUsername(username: Option<string>): (r: Result<Unit, Exception>)
    ensures r.Ok? <==> !NullOrBlank(username)
    ensures r.Err? ==> r.error == Raise(BadRequest, "Username cannot be empty")
  {
    HF.BuiltIsComplete();
    if NullOrBlank(username) then Err(Thrown(HF.BadRequest(HF.Built, "Username cannot be empty"))) else Ok(Unit)
  }

  /** A single-result query inside the catch-all of the getters: the DTO of
      the one match, else the failed read, the not-found or the too-many-rows
      exception wrapped as service-unavailable with the getter's prefix. */
  function SingleQuery(store: Store, p: Handshake -> bool, read: ReadStatus, params: seq<string>, prefix: string): (r: Result<HandshakeDto, Exception>)
    requires |params| > 0
    ensures r.Ok? <==> read.Answered? && Count(store, p) == 1
    ensures r.Ok? ==> exists h :: h in store && p(h) && r.value == From(h)
    ensures read.ReadFailed? ==> r == Err(Raise(ServiceUnavailable, prefix + read.message))
    ensures read.Answered? && Count(store, p) == 0 ==> r == Err(Raise(ServiceUnavailable, prefix + HandshakeNotFoundWith(params[0])))
    ensures read.Answered? && Count(store, p) > 1 ==> r == Err(Raise(ServiceUnavailable, prefix + NON_UNIQUE_RESULT))
  {
    if read.ReadFailed? then Err(Unavailable(prefix, DataAccessError(read.message))) else
    match FindOne(store, p)
    case Err(e) => Err(Unavailable(prefix, e))
    case Ok(None) => Err(Unavailable(prefix, General(G.HandshakeNotFound, params)))
    case Ok(Some(h)) => Ok(From(h))
  }

  /** getHandshakeByName: blank names are refused before the store is read. */
  function GetHandshakeByName(store: Store, name: Option<string>, read: ReadStatus): (r: Result<HandshakeDto, Exception>)
    ensures NullOrBlank(name) ==> r == Err(Raise(BadRequest, "Handshake name cannot be empty"))
    ensures !NullOrBlank(name) && read.ReadFailed? ==>
      r == Err(Raise(ServiceUnavailable, "Failed to retrieve handshake by name: " + read.message))
    ensures !NullOrBlank(name) && read.Answered? && !HasName(store, name.value) ==>
      r == Err(Raise(ServiceUnavailable, "Failed to retrieve handshake by name: " + HandshakeNotFoundWith(name.value)))
    ensures r.Ok? ==> !NullOrBlank(name) && read.Answered? && exists h :: h in store && h.handshakeName == name.value && r.value == From(h)
    ensures UniqueNames(store) && !NullOrBlank(name) && read.Answered? && HasName(store, name.value) ==> r.Ok?
  {
    HF.BuiltIsComplete();
    if NullOrBlank(name) then Err(Thrown(HF.BadRequest(HF.Built, "Handshake name cannot be empty")))
    else
      UniqueNameMatchesOnce(store, name.value);
      SingleQuery(store, ByName(name.value), read, [name.value], "Failed to retrieve handshake by name: ")
  }

  /** getHandshakeByAcceptor: the one handshake the user accepts. */
  function GetHandshakeByAcceptor(store: Store, username: Option<string>, read: ReadStatus): (r: Result<HandshakeDto, Exception>)
    ensures NullOrBlank(username) ==> r == Err(Raise(BadRequest, "Username cannot be empty"))
    ensures r.Ok? <==> !NullOrBlank(username) && read.Answered? && Count(store, ByAcceptor(username.value)) == 1
    ensures r.Ok? ==> exists h :: h in store && h.acceptorUsername == username.value && r.value == From(h)
    ensures !NullOrBlank(username) && read.ReadFailed? ==>
      r == Err(Raise(ServiceUnavailable, "Failed to retrieve handshake by acceptor: " + read.message))
    ensures !NullOrBlank(username) && read.Answered? && Count(store, ByAcceptor(username.value)) == 0 ==>
      r == Err(Raise(ServiceUnavailable, "Failed to retrieve handshake by acceptor: " + HandshakeNotFoundWith(username.value)))
  {
    match ValidateUsername(username)
    case Err(e) => Err(e)
    case Ok(_) => SingleQuery(store, ByAcceptor(username.value), read, [username.value, "acceptor username"], "Failed to retrieve handshake by acceptor: ")
  }

  /** getHandshakeByInitiator: the one handshake the user initiated. */
  function GetHandshakeByInitiator(store: Store, username: Option<string>, read: ReadStatus): (r: Result<HandshakeDto, Exception>)
    ensures NullOrBlank(username) ==> r == Err(Raise(BadRequest, "Username cannot be empty"))
    ensures r.Ok? <==> !NullOrBlank(username) && read.Answered? && Count(store, ByInitiator(username.value)) == 1
    ensures r.Ok? ==> exists h :: h in store && h.initiatorUsername == username.value && r.value == From(h)
    ensures !NullOrBlank(username) && read.ReadFailed? ==>
      r == Err(Raise(ServiceUnavailable, "Failed to retrieve handshake by initiator: " + read.message))
    ensures !NullOrBlank(username) && read.Answered? && Count(store, ByInitiator(username.value)) == 0 ==>
      r == Err(Raise(ServiceUnavailable, "Failed to retrieve handshake by initiator: " + HandshakeNotFoundWith(username.value)))
  {
    match ValidateUsername(username)
    case Err(e) => Err(e)
    case Ok(_) => SingleQuery(store, ByInitiator(username.value), read, [username.value, "initiator username"], "Failed to retrieve handshake by initiator: ")
  }

  /** A list query: one DTO per matching record. The derived query fixes no
      order; the model lists the matches as the table holds them. */
  function ListQuery(store: Store, p: Handshake -> bool, read: ReadStatus, prefix: string): (r: Result<seq<HandshakeDto>, Exception>)
    ensures read.Answered? ==> r.Ok? && |r.value| == Count(store, p)
    ensures read.Answered? ==>
      forall i :: 0 <= i < |r.value| ==> exists h :: h in store && p(h) && r.value[i] == From(h)
    ensures read.Answered? ==>
      forall h :: h in store && p(h) ==> From(h) in r.value
    ensures read.ReadFailed? ==> r == Err(Raise(ServiceUnavailable, prefix + read.message))
  {
    match read
    case Answered =>
      FilterLengthIsCount(store, p);
      var matching := Filter(store, p);
      assert forall i :: 0 <= i < |matching| ==> matching[i] in store && p(matching[i]);
      Ok(Map(matching, From))
    case ReadFailed(m) => Err(Unavailable(prefix, DataAccessError(m)))
  }

  /** getHandshakesByInitiator. */
  function GetHandshakesByInitiator(store: Store, username: Option<string>, read: ReadStatus): (r: Result<seq<HandshakeDto>, Exception>)
    ensures NullOrBlank(username) ==> r == Err(Raise(BadRequest, "Username cannot be empty"))
    ensures !NullOrBlank(username) && read.Answered? ==>
      r.Ok? && |r.value| == Count(store, ByInitiator(username.value))
    ensures r.Ok? ==>
      forall i :: 0 <= i < |r.value| ==> exists h :: h in store && h.initiatorUsername == username.value && r.value[i] == From(h)
    ensures r.Ok? ==>
      forall h :: h in store && h.initiatorUsername == username.value ==> From(h) in r.value
    ensures !NullOrBlank(username) && read.ReadFailed? ==>
      r == Err(Raise(ServiceUnavailable, "Failed to retrieve handshakes by initiator: " + read.message))
  {
    match ValidateUsername(username)
    case Err(e) => Err(e)
    case Ok(_) => ListQuery(store, ByInitiator(username.value), read, "Failed to retrieve handshakes by initiator: ")
  }

  /** getHandshakesByAcceptor. */
  function GetHandshakesByAcceptor(store: Store, username: Option<string>, read: ReadStatus): (r: Result<seq<HandshakeDto>, Exception>)
    ensures NullOrBlank(username) ==> r == Err(Raise(BadRequest, "Username cannot be empty"))
    ensures !NullOrBlank(username) && read.Answered? ==>
      r.Ok? && |r.value| == Count(store, ByAcceptor(username.value))
    ensures r.Ok? ==>
      forall i :: 0 <= i < |r.value| ==> exists h :: h in store && h.acceptorUsername == username.value && r.value[i] == From(h)
    ensures r.Ok? ==>
      forall h :: h in store && h.acceptorUsername == username.value ==> From(h) in r.value
    ensures !NullOrBlank(username) && read.ReadFailed? ==>
      r == Err(Raise(ServiceUnavailable, "Failed to retrieve handshakes by acceptor: " + read.message))
  {
    match ValidateUsername(username)
    case Err(e) => Err(e)
    case Ok(_) => ListQuery(store, ByAcceptor(username.value), read, "Failed to retrieve handshakes by acceptor: ")
  }

  // ----- properties relating several operations -----

  /** A created handshake is found by its name as a CREATED handshake that was
      never updated. */
  lemma CreateThenGetByName(users: U.UserStore, store: Store, req: CreateRequest)
    requires UniqueNames(store) && !IsBlank(req.handshakeName)
    requires CreateHandshake(users, store, Some(req), Answered, Saved).Ok?
    ensures GetHandshakeByName(CreateHandshake(users, store, Some(req), Answered, Saved).value, Some(req.handshakeName), Answered)
      == Ok(HandshakeDto(req.handshakeName, req.encryptedDetails, req.createdDate, None, Created,
                         req.initiatorUsername, req.acceptorUsername))
  {
    var s := CreateHandshake(users, store, Some(req), Answered, Saved).value;
    var h := s[|store|];
    assert s == store + [h];
    assert HasName(s, req.handshakeName);
    var got := GetHandshakeByName(s, Some(req.handshakeName), Answered);
    var g :| g in s && g.handshakeName == req.handshakeName && got.value == From(g);
    var k :| 0 <= k < |s| && s[k] == g;
    assert k == |store|;
  }

  /** An update shows in the next lookup by name: new status, the update date
      as completed date, everything else as before. */
  lemma UpdateThenGetByName(store: Store, name: string, date: Timestamp, next: HandshakeStatus)
    requires UniqueNames(store) && !IsBlank(name) && HasName(store, name)
    ensures GetHandshakeByName(store, Some(name), Answered).Ok?
    ensures UpdateHandshake(store, Some(UpdateRequest(Some(name), date, next)), Answered, Saved).Ok?
    ensures GetHandshakeByName(UpdateHandshake(store, Some(UpdateRequest(Some(name), date, next)), Answered, Saved).value, Some(name), Answered)
      == Ok(GetHandshakeByName(store, Some(name), Answered).value.(handshakeStatus := next, completedDate := Some(date)))
  {
    var k :| 0 <= k < |store| && store[k].handshakeName == name;
    StoredNameIsFound(store, name, k);
    var s := StoredNameIsUpdated(store, name, k, date, next);
    StoredNameIsFound(s, name, k);
    FromAfterUpdate(store[k], date, next);
  }

  /** In a table with unique names, the update of a stored name replaces the
      record stored under it and keeps the names unique. */
  lemma StoredNameIsUpdated(store: Store, name: string, k: int, date: Timestamp, next: HandshakeStatus) returns (s: Store)
    requires UniqueNames(store)
    requires 0 <= k < |store| && store[k].handshakeName == name
    ensures UpdateHandshake(store, Some(UpdateRequest(Some(name), date, next)), Answered, Saved) == Ok(s)
    ensures UniqueNames(s) && 0 <= k < |s| && s[k] == Updated(store[k], date, next)
  {
    s := UpdateHandshake(store, Some(UpdateRequest(Some(name), date, next)), Answered, Saved).value;
    var h :| h in store && h.handshakeName == name && s == ReplaceNamed(store, name, Updated(h, date, next));
    assert h == store[k] by {
      var j :| 0 <= j < |store| && store[j] == h;
      assert j == k;
    }
  }

  /** In a table with unique names, the lookup by name finds the record
      stored under it. */
  lemma StoredNameIsFound(store: Store, name: string, k: int)
    requires UniqueNames(store) && !IsBlank(name)
    requires 0 <= k < |store| && store[k].handshakeName == name
    ensures GetHandshakeByName(store, Some(name), Answered) == Ok(From(store[k]))
  {
    var r := GetHandshakeByName(store, Some(name), Answered);
    var h :| h in store && h.handshakeName == name && r.value == From(h);
    var j :| 0 <= j < |store| && store[j] == h;
    assert j == k;
  }

  /** A created handshake joins its initiator's list and the earlier entries
      stay; with the matches listed as the table holds them, it comes last. */
  lemma {:induction false} CreateExtendsInitiatorList(users: U.UserStore, store: Store, req: CreateRequest)
    requires !IsBlank(req.initiatorUsername)
    requires CreateHandshake(users, store, Some(req), Answered, Saved).Ok?
    ensures GetHandshakesByInitiator(CreateHandshake(users, store, Some(req), Answered, Saved).value,
                                     Some(req.initiatorUsername), Answered).Ok?
    ensures GetHandshakesByInitiator(CreateHandshake(users, store, Some(req), Answered, Saved).value,
                                     Some(req.initiatorUsername), Answered).value
      == GetHandshakesByInitiator(store, Some(req.initiatorUsername), Answered).value
         + [From(CreateHandshake(users, store, Some(req), Answered, Saved).value[|store|])]
    ensures multiset(GetHandshakesByInitiator(CreateHandshake(users, store, Some(req), Answered, Saved).value,
                                              Some(req.initiatorUsername), Answered).value)
      == multiset(GetHandshakesByInitiator(store, Some(req.initiatorUsername), Answered).value)
         + multiset{From(CreateHandshake(users, store, Some(req), Answered, Saved).value[|store|])}
  {
    var s := CreateHandshake(users, store, Some(req), Answered, Saved).value;
    var h := s[|store|];
    assert s == store + [h];
    var p := ByInitiator(req.initiatorUsername);
    FilterAppend(store, h, p);
    MapAppend(Filter(store, p), h, From);
  }
}
