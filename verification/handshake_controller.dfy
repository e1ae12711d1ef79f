/** controller/HandshakeController: each route calls the handshake service
    once and wraps its answer in a success envelope; an exception the service
    throws leaves the route and is answered by the global exception handler. */
module HandshakeController {
  import opened Common
  import opened Exceptions
  import opened ExceptionMessages
  import opened Envelope
  import opened Repository
  import opened HandshakeModel
  import opened HandshakeStore
  import opened HandshakeService
  import EH = ErrorHandler

  /** The four status-changing routes. */
  datatype Action = Accept | Reject | Complete | Cancel

  /** The status each route asks the service for. */
  function RequestedStatus(a: Action): HandshakeStatus
  {
    match a
    case Accept => Accepted
    case Reject | Cancel => Cancelled
    case Complete => Completed
  }

  /** The success message of each route. */
  function SuccessMessage(a: Action): string
  {
    match a
    case Accept => "Handshake accepted"
    case Reject => "Handshake rejected"
    case Complete => "Handshake completed"
    case Cancel => "Handshake canceled"
  }

  /** The action routes only move a handshake to ACCEPTED, CANCELLED or
      COMPLETED; reject and cancel both cancel, and the messages tell all four
      routes apart. */
  lemma StatusTable(a: Action, b: Action)
    ensures RequestedStatus(a) in {Accepted, Cancelled, Completed}
    ensures RequestedStatus(a) == Accepted <==> a == Accept
    ensures RequestedStatus(a) == Completed <==> a == Complete
    ensures RequestedStatus(a) == Cancelled <==> a == Reject || a == Cancel
    ensures SuccessMessage(a) == SuccessMessage(b) <==> a == b
  {
  }

  /** An action route: the name goes unchanged into one update with the
      route's status; the update date is the caller's clock reading. On
      success the table is the updated one and the envelope carries no data. */
  function Act(store: Store, a: Action, handshakeName: Option<string>, now: Timestamp, read: ReadStatus, save: SaveOutcome)
    : (r: Result<(Store, ApiResponse<string>), Exception>)
    ensures var u := UpdateHandshake(store, Some(UpdateRequest(handshakeName, now, RequestedStatus(a))), read, save);
      && (r.Ok? <==> u.Ok?)
      && (r.Err? ==> r.error == u.error)
      && (r.Ok? ==> r.value.0 == u.value)
    ensures r.Ok? ==> r.value.1 == ApiResponse(SuccessMessage(a), 200, None)
    ensures r.Ok? ==>
      && handshakeName.Some?
      && |r.value.0| == |store|
      && forall i :: 0 <= i < |store| && store[i].handshakeName == handshakeName.value ==>
           r.value.0[i].status == RequestedStatus(a) && r.value.0[i].mostRecentUpdateDate == Some(now)
  {
    match UpdateHandshake(store, Some(UpdateRequest(handshakeName, now, RequestedStatus(a))), read, save)
    case Ok(s) => Ok((s, SuccessEmpty(SuccessMessage(a))))
    case Err(e) => Err(e)
  }

  /** The HTTP answer of an action route, the global handler included. */
  function ActionResponse(store: Store, a: Action, handshakeName: Option<string>, now: Timestamp, read: ReadStatus, save: SaveOutcome): (resp: EH.Response)
    ensures Act(store, a, handshakeName, now, read, save).Ok? ==>
      resp == EH.Response(200, ApiResponse(SuccessMessage(a), 200, None))
    ensures Act(store, a, handshakeName, now, read, save).Err? ==>
      resp == EH.Handle(Act(store, a, handshakeName, now, read, save).error)
  {
    match Act(store, a, handshakeName, now, read, save)
    case Ok((_, body)) => EH.Response(200, body)
    case Err(e) => EH.Handle(e)
  }

  /** Reject and cancel leave the same table and fail the same way; only the
      success message differs. */
  lemma RejectAndCancelDifferOnlyInMessage(store: Store, handshakeName: Option<string>, now: Timestamp, read: ReadStatus, save: SaveOutcome)
    ensures Act(store, Reject, handshakeName, now, read, save).Ok? <==> Act(store, Cancel, handshakeName, now, read, save).Ok?
    ensures Act(store, Reject, handshakeName, now, read, save).Ok? ==>
      && Act(store, Reject, handshakeName, now, read, save).value.0 == Act(store, Cancel, handshakeName, now, read, save).value.0
      && Act(store, Reject, handshakeName, now, read, save).value.1.message == "Handshake rejected"
      && Act(store, Cancel, handshakeName, now, read, save).value.1.message == "Handshake canceled"
    ensures Act(store, Reject, handshakeName, now, read, save).Err? ==>
      Act(store, Reject, handshakeName, now, read, save).error == Act(store, Cancel, handshakeName, now, read, save).error
  {
    var u := UpdateHandshake(store, Some(UpdateRequest(handshakeName, now, Cancelled)), read, save);
    var r := Act(store, Reject, handshakeName, now, read, save);
    var c := Act(store, Cancel, handshakeName, now, read, save);
    assert RequestedStatus(Reject) == Cancelled && RequestedStatus(Cancel) == Cancelled;
    if u.Ok? {
      assert r.Ok? && r.value.0 == u.value;
      assert c.Ok? && c.value.0 == u.value;
    } else {
      assert r.Err? && r.error == u.error;
      assert c.Err? && c.error == u.error;
    }
  }

  /** With the service as written, an action on a name that is not stored is
      answered with 500 and the database-error message: the service wraps the
      not-found exception, which alone would have given 404. */
  lemma MissingNameIsServerError(store: Store, a: Action, name: string, now: Timestamp, save: SaveOutcome)
    requires !HasName(store, name)
    ensures ActionResponse(store, a, Some(name), now, Answered, save)
      == EH.Response(500, Error("Failed to update handshake: " + HandshakeNotFoundWith(name), 500))
    ensures EH.Handle(Raise(HandshakeNotFound, HandshakeNotFoundWith(name))).status == 404
  {
    EH.DatabaseAndAuthorizationResponses(Raise(Database, "Failed to update handshake: " + HandshakeNotFoundWith(name)));
    EH.NotFoundResponses(Raise(HandshakeNotFound, HandshakeNotFoundWith(name)));
  }

  /** A client can tell the outcome of an action from the status alone: 200
      exactly when the update went through. */
  lemma ActionSucceedsIffOk(store: Store, a: Action, handshakeName: Option<string>, now: Timestamp, read: ReadStatus, save: SaveOutcome)
    ensures ActionResponse(store, a, handshakeName, now, read, save).status == 200
      <==> UpdateHandshake(store, Some(UpdateRequest(handshakeName, now, RequestedStatus(a))), read, save).Ok?
  {
    var act := Act(store, a, handshakeName, now, read, save);
    if act.Err? {
      EH.HandledIsNeverSuccess(act.error, SuccessMessage(a), SuccessMessage(a));
    }
  }

  /** A failed read of the table during an action is answered with 500 and
      the driver's message behind the update prefix. */
  lemma FailedReadIsServerError(store: Store, a: Action, name: string, now: Timestamp, message: string, save: SaveOutcome)
    ensures ActionResponse(store, a, Some(name), now, ReadFailed(message), save)
      == EH.Response(500, Error("Failed to update handshake: " + message, 500))
  {
    EH.DatabaseAndAuthorizationResponses(Raise(Database, "Failed to update handshake: " + message));
  }

  /** A stored name is moved to the route's status whatever its status was,
      and the route answers 200 with its message. */
  lemma ActionOnStoredName(store: Store, a: Action, name: string, now: Timestamp)
    requires UniqueNames(store) && HasName(store, name)
    ensures Act(store, a, Some(name), now, Answered, Saved).Ok?
    ensures ActionResponse(store, a, Some(name), now, Answered, Saved) == EH.Response(200, ApiResponse(SuccessMessage(a), 200, None))
  {
  }

  /** The three single-handshake lookups. */
  datatype Lookup = ByNameRoute | ByAcceptorRoute | ByInitiatorRoute

  /** A single-handshake GET route: "Handshake retrieved" with the DTO, or the
      service's exception. */
  function Retrieve(store: Store, route: Lookup, key: Option<string>, read: ReadStatus): (r: Result<ApiResponse<HandshakeDto>, Exception>)
    ensures var q := match route
                     case ByNameRoute => GetHandshakeByName(store, key, read)
                     case ByAcceptorRoute => GetHandshakeByAcceptor(store, key, read)
                     case ByInitiatorRoute => GetHandshakeByInitiator(store, key, read);
      && (r.Ok? <==> q.Ok?)
      && (r.Ok? ==> r.value == ApiResponse("Handshake retrieved", 200, Some(q.value)))
      && (r.Err? ==> r.error == q.error)
  {
    var q := match route
             case ByNameRoute => GetHandshakeByName(store, key, read)
             case ByAcceptorRoute => GetHandshakeByAcceptor(store, key, read)
             case ByInitiatorRoute => GetHandshakeByInitiator(store, key, read);
    match q
    case Ok(d) => Ok(Success("Handshake retrieved", d))
    case Err(e) => Err(e)
  }

  /** The two list GET routes. */
  datatype ListLookup = ByInitiatorList | ByAcceptorList

  /** A list GET route: "Handshakes retrieved" with the DTO list, or the
      service's exception. */
  function RetrieveAll(store: Store, route: ListLookup, username: Option<string>, read: ReadStatus)
    : (r: Result<ApiResponse<seq<HandshakeDto>>, Exception>)
    ensures var q := match route
                     case ByInitiatorList => GetHandshakesByInitiator(store, username, read)
                     case ByAcceptorList => GetHandshakesByAcceptor(store, username, read);
      && (r.Ok? <==> q.Ok?)
      && (r.Ok? ==> r.value == ApiResponse("Handshakes retrieved", 200, Some(q.value)))
      && (r.Err? ==> r.error == q.error)
  {
    var q := match route
             case ByInitiatorList => GetHandshakesByInitiator(store, username, read)
             case ByAcceptorList => GetHandshakesByAcceptor(store, username, read);
    match q
    case Ok(ds) => Ok(Success("Handshakes retrieved", ds))
    case Err(e) => Err(e)
  }

  /** A blank key never reaches the store: every GET route answers 400. */
  lemma BlankKeysAreBadRequests(store: Store, route: Lookup, key: Option<string>, read: ReadStatus)
    requires NullOrBlank(key)
    ensures Retrieve(store, route, key, read).Err?
    ensures EH.Handle(Retrieve(store, route, key, read).error).status == 400
  {
    EH.ValidationResponses(Retrieve(store, route, key, read).error);
  }

  /** A failed read of the table on a GET route with a usable key is answered
      with 503 and the driver's message behind the route's prefix. */
  lemma FailedLookupIsUnavailable(store: Store, name: string, message: string)
    requires !IsBlank(name)
    ensures EH.Handle(Retrieve(store, ByNameRoute, Some(name), ReadFailed(message)).error)
      == EH.Response(503, Error("Failed to retrieve handshake by name: " + message, 503))
  {
    EH.UnavailableResponses(Retrieve(store, ByNameRoute, Some(name), ReadFailed(message)).error);
  }

  /** A name nobody stored is answered with 503, not 404: the service wraps
      its own not-found exception as service-unavailable. */
  lemma UnknownNameIsUnavailable(store: Store, name: string)
    requires !IsBlank(name) && !HasName(store, name)
    ensures Retrieve(store, ByNameRoute, Some(name), Answered).Err?
    ensures EH.Handle(Retrieve(store, ByNameRoute, Some(name), Answered).error)
      == EH.Response(503, Error("Failed to retrieve handshake by name: " + HandshakeNotFoundWith(name), 503))
  {
    EH.UnavailableResponses(Retrieve(store, ByNameRoute, Some(name), Answered).error);
  }
}
