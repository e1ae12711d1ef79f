/** What the three exception factories share: the registration loop their
    constructors run, the enum argument of `create(Enum<?> type, ...)`, and the
    checked cast each convenience method applies to what `create` returns. */
module FactorySupport {
  import opened Common
  import E = Exceptions
  import opened ExceptionMessages
  import G = GeneralExceptionTypes
  import U = UserExceptionTypes
  import H = HandshakeExceptionTypes

  /** Any enum constant, as the `Enum<?>` parameter of
      BaseExceptionFactory.create sees it. */
  datatype AnyEnum =
    | GeneralConstant(g: G.ExceptionType)
    | UserConstant(u: U.UserExceptionType)
    | HandshakeConstant(h: H.HandshakeExceptionType)
    | OtherConstant(name: string)

  /** `initializeMap`: put every constant of `values()` into the map; the
      key set after the loop is exactly the set of listed constants. */
  method RegisterAll<T(==)>(values: seq<T>) returns (registered: set<T>)
    ensures forall v :: v in registered <==> v in values
  {
    registered := {};
    var i := 0;
    while i < |values|
      invariant 0 <= i <= |values|
      invariant forall v :: v in registered <==> v in values[..i]
    {
      assert values[..i + 1] == values[..i] + [values[i]];
      registered := registered + {values[i]};
      i := i + 1;
    }
    assert values[..i] == values;
  }

  /** The `(SomeException) create(...)` cast of a convenience method: a returned
      exception of another class becomes a ClassCastException; a thrown one
      propagates untouched. */
  function Cast(r: Created, target: E.ExceptionClass): (c: Created)
    ensures r.Err? ==> c == r
    ensures r.Ok? && E.IsA(r.value.cls, target) ==> c == r
    ensures r.Ok? && !E.IsA(r.value.cls, target) ==> c.Err? && c.error.cls == E.ClassCast
  {
    if r.Ok? && !E.IsA(r.value.cls, target) then Err(E.Raise(E.ClassCast, "class cast"))
    else r
  }
}

/** exceptions/ExceptionFactory: an EnumMap over types/ExceptionType. */
module GeneralFactory {
  import opened Common
  import E = Exceptions
  import opened ExceptionMessages
  import opened FactorySupport
  import G = GeneralExceptionTypes

  datatype ExceptionFactory = ExceptionFactory(registered: set<G.ExceptionType>)

  /** Every constant has an entry, as after the constructor. */
  ghost predicate Complete(f: ExceptionFactory)
  {
    forall t: G.ExceptionType :: t in f.registered
  }

  /** The factory the constructor builds. */
  const Built: ExceptionFactory := ExceptionFactory(set t | t in G.Values)

  /** The constructor: registers every ExceptionType, so the map is total. */
  method NewExceptionFactory() returns (f: ExceptionFactory)
    ensures Complete(f)
    ensures f == Built
  {
    var registered := RegisterAll(G.Values);
    forall t: G.ExceptionType
      ensures t in registered
    {
      G.ValuesEnumerateAll(t);
    }
    f := ExceptionFactory(registered);
  }

  lemma BuiltIsComplete()
    ensures Complete(Built)
  {
    forall t: G.ExceptionType
      ensures t in Built.registered
    {
      G.ValuesEnumerateAll(t);
    }
  }

  /** create(type, params): a `null` or unregistered type throws
      IllegalArgumentException; otherwise the constant's own `create`. Once the
      constructor has run, the IllegalArgumentException is reachable only with
      a `null` type. */
  function Create(f: ExceptionFactory, t: Option<G.ExceptionType>, params: seq<string>): (r: Created)
    ensures t.None? ==> r == Err(E.Raise(E.IllegalArgument, "Unknown exception type: null"))
    ensures Complete(f) && t.Some? ==> r == G.Create(t.value, params)
    ensures r.Err? && r.error.cls == E.IllegalArgument ==> t.None? || !Complete(f)
  {
    match t
    case None => Err(E.Raise(E.IllegalArgument, "Unknown exception type: null"))
    case Some(ty) =>
      if ty !in f.registered then Err(E.Raise(E.IllegalArgument, "Unknown exception type: " + G.Name(ty)))
      else G.Create(ty, params)
  }

  function UserAlreadyExists(f: ExceptionFactory, username: string): (r: Created)
    ensures Complete(f) ==> r == G.Create(G.UserAlreadyExists, [username])
    ensures Complete(f) ==> r.Ok? && r.value.cls == E.UserAlreadyExists
  {
    Cast(Create(f, Some(G.UserAlreadyExists), [username]), E.UserAlreadyExists)
  }

  function UserNotFound(f: ExceptionFactory, identifier: string): (r: Created)
    ensures Complete(f) ==> r == G.Create(G.UserNotFound, [identifier])
    ensures Complete(f) ==> r.Ok? && r.value.cls == E.UserNotFound
  {
    Cast(Create(f, Some(G.UserNotFound), [identifier]), E.UserNotFound)
  }

  function InvalidCredentials(f: ExceptionFactory): (r: Created)
    ensures Complete(f) ==> r == G.Create(G.InvalidCredentials, [])
    ensures Complete(f) ==> r.Ok? && r.value.cls == E.InvalidCredentials
  {
    Cast(Create(f, Some(G.InvalidCredentials), []), E.InvalidCredentials)
  }

  function AccountDisabled(f: ExceptionFactory): (r: Created)
    ensures Complete(f) ==> r == G.Create(G.AccountDisabled, [])
    ensures Complete(f) ==> r.Ok? && r.value.cls == E.InvalidCredentials
  {
    Cast(Create(f, Some(G.AccountDisabled), []), E.InvalidCredentials)
  }

  function HandshakeNotFound(f: ExceptionFactory, identifier: string): (r: Created)
    ensures Complete(f) ==> r == G.Create(G.HandshakeNotFound, [identifier])
    ensures Complete(f) ==> r.Ok? && r.value.cls == E.HandshakeNotFound
  {
    Cast(Create(f, Some(G.HandshakeNotFound), [identifier]), E.HandshakeNotFound)
  }

  function BadRequest(f: ExceptionFactory, message: string): (r: Created)
    ensures Complete(f) ==> r == Ok(E.Raise(E.BadRequest, message))
  {
    Cast(Create(f, Some(G.BadRequest), [message]), E.BadRequest)
  }

  /** ExceptionFactory.java declares no `serviceUnavailable` or `databaseError`,
      yet UserServiceImpl calls both on it; they are modelled as `create` with
      the constant of that name and the message as its only parameter. */
  function ServiceUnavailable(f: ExceptionFactory, message: string): (r: Created)
    ensures Complete(f) ==> r == Ok(E.Raise(E.ServiceUnavailable, message))
  {
    Cast(Create(f, Some(G.ServiceUnavailable), [message]), E.ServiceUnavailable)
  }

  function DatabaseError(f: ExceptionFactory, message: string): (r: Created)
    ensures Complete(f) ==> r == Ok(E.Raise(E.Database, message))
  {
    Cast(Create(f, Some(G.DatabaseError), [message]), E.Database)
  }

  /** Each convenience method of the built factory is `create` with its
      matching constant and its argument as the only parameter, and its cast
      never fails. */
  lemma ConvenienceIsCreate(p: string)
    ensures UserAlreadyExists(Built, p) == Create(Built, Some(G.UserAlreadyExists), [p])
    ensures UserNotFound(Built, p) == Create(Built, Some(G.UserNotFound), [p])
    ensures InvalidCredentials(Built) == Create(Built, Some(G.InvalidCredentials), [])
    ensures AccountDisabled(Built) == Create(Built, Some(G.AccountDisabled), [])
    ensures HandshakeNotFound(Built, p) == Create(Built, Some(G.HandshakeNotFound), [p])
    ensures BadRequest(Built, p) == Create(Built, Some(G.BadRequest), [p])
  {
    BuiltIsComplete();
  }
}

/** exceptions/UserExceptionFactory: an EnumMap over UserExceptionType. */
module UserFactory {
  import opened Common
  import E = Exceptions
  import opened ExceptionMessages
  import opened FactorySupport
  import U = UserExceptionTypes

  datatype UserExceptionFactory = UserExceptionFactory(registered: set<U.UserExceptionType>)

  ghost predicate Complete(f: UserExceptionFactory)
  {
    forall t: U.UserExceptionType :: t in f.registered
  }

  const Built: UserExceptionFactory := UserExceptionFactory(set t | t in U.Values)

  /** The constructor: registers every UserExceptionType. */
  method NewUserExceptionFactory() returns (f: UserExceptionFactory)
    ensures Complete(f)
    ensures f == Built
  {
    var registered := RegisterAll(U.Values);
    forall t: U.UserExceptionType
      ensures t in registered
    {
      U.ValuesEnumerateAll(t);
    }
    f := UserExceptionFactory(registered);
  }

  lemma BuiltIsComplete()
    ensures Complete(Built)
  {
    forall t: U.UserExceptionType
      ensures t in Built.registered
    {
      U.ValuesEnumerateAll(t);
    }
  }

  /** create(Enum<?> type, params): anything but a UserExceptionType (`null`
      included) throws IllegalArgumentException; a constant missing from the
      map would make `get(...)` null and `apply` throw NullPointerException;
      otherwise the constant's own `create`. */
  function Create(f: UserExceptionFactory, t: Option<AnyEnum>, params: seq<string>): (r: Created)
    ensures (t.None? || !t.value.UserConstant?) ==>
      r == Err(E.Raise(E.IllegalArgument, "Invalid UserExceptionType"))
    ensures Complete(f) && t.Some? && t.value.UserConstant? ==> r == U.Create(t.value.u, params)
  {
    if t.None? || !t.value.UserConstant? then Err(E.Raise(E.IllegalArgument, "Invalid UserExceptionType"))
    else if t.value.u !in f.registered then Err(E.Raise(E.NullPointer, "exception map has no entry"))
    else U.Create(t.value.u, params)
  }

  function UserAlreadyExists(f: UserExceptionFactory, username: string): (r: Created)
    ensures Complete(f) ==> r == U.Create(U.UserAlreadyExists, [username]) && r.Ok?
    ensures Complete(f) ==> r.value.cls == E.UserAlreadyExists
  {
    Cast(Create(f, Some(UserConstant(U.UserAlreadyExists)), [username]), E.UserAlreadyExists)
  }

  function UserNotFound(f: UserExceptionFactory, identifier: string): (r: Created)
    ensures Complete(f) ==> r == U.Create(U.UserNotFound, [identifier]) && r.Ok?
    ensures Complete(f) ==> r.value.cls == E.UserNotFound
  {
    Cast(Create(f, Some(UserConstant(U.UserNotFound)), [identifier]), E.UserNotFound)
  }

  function InvalidCredentials(f: UserExceptionFactory): (r: Created)
    ensures Complete(f) ==> r == U.Create(U.InvalidCredentials, []) && r.Ok?
    ensures Complete(f) ==> r.value.cls == E.InvalidCredentials
  {
    Cast(Create(f, Some(UserConstant(U.InvalidCredentials)), []), E.InvalidCredentials)
  }

  /** accountDisabled yields an InvalidCredentials-class exception, which the
      global handler will answer with 401, not 403. */
  function AccountDisabled(f: UserExceptionFactory): (r: Created)
    ensures Complete(f) ==> r == U.Create(U.AccountDisabled, []) && r.Ok?
    ensures Complete(f) ==> r.value.cls == E.InvalidCredentials && r.value.message == "Account is disabled"
  {
    Cast(Create(f, Some(UserConstant(U.AccountDisabled)), []), E.InvalidCredentials)
  }

  function BadRequest(f: UserExceptionFactory, message: string): (r: Created)
    ensures Complete(f) ==> r == Ok(E.Raise(E.BadRequest, message))
  {
    Cast(Create(f, Some(UserConstant(U.BadRequest)), [message]), E.BadRequest)
  }

  function ServiceUnavailable(f: UserExceptionFactory, message: string): (r: Created)
    ensures Complete(f) ==> r == Ok(E.Raise(E.ServiceUnavailable, message))
  {
    Cast(Create(f, Some(UserConstant(U.ServiceUnavailable)), [message]), E.ServiceUnavailable)
  }

  function DatabaseError(f: UserExceptionFactory, message: string): (r: Created)
    ensures Complete(f) ==> r == Ok(E.Raise(E.Database, message))
  {
    Cast(Create(f, Some(UserConstant(U.DatabaseError)), [message]), E.Database)
  }

  function AccountLocked(f: UserExceptionFactory, message: string): (r: Created)
    ensures Complete(f) ==> r == Ok(E.Raise(E.AccountLocked, message))
  {
    Cast(Create(f, Some(UserConstant(U.AccountLocked)), [message]), E.AccountLocked)
  }

  /** A general or handshake constant handed to the user factory is refused
      whatever the parameters. */
  lemma ForeignConstantsRefused(g: AnyEnum, params: seq<string>)
    requires !g.UserConstant?
    ensures Create(Built, Some(g), params).Err?
    ensures Create(Built, Some(g), params).error.cls == E.IllegalArgument
  {
  }
}

/** exceptions/HandshakeExceptionFactory: an EnumMap over HandshakeExceptionType. */
module HandshakeFactory {
  import opened Common
  import E = Exceptions
  import opened ExceptionMessages
  import opened FactorySupport
  import H = HandshakeExceptionTypes

  datatype HandshakeExceptionFactory = HandshakeExceptionFactory(registered: set<H.HandshakeExceptionType>)

  ghost predicate Complete(f: HandshakeExceptionFactory)
  {
    forall t: H.HandshakeExceptionType :: t in f.registered
  }

  const Built: HandshakeExceptionFactory := HandshakeExceptionFactory(set t | t in H.Values)

  /** The constructor: registers every HandshakeExceptionType. */
  method NewHandshakeExceptionFactory() returns (f: HandshakeExceptionFactory)
    ensures Complete(f)
    ensures f == Built
  {
    var registered := RegisterAll(H.Values);
    forall t: H.HandshakeExceptionType
      ensures t in registered
    {
      H.ValuesEnumerateAll(t);
    }
    f := HandshakeExceptionFactory(registered);
  }

  lemma BuiltIsComplete()
    ensures Complete(Built)
  {
    forall t: H.HandshakeExceptionType
      ensures t in Built.registered
    {
      H.ValuesEnumerateAll(t);
    }
  }

  /** create(Enum<?> type, params): anything but a HandshakeExceptionType is
      refused with IllegalArgumentException. */
  function Create(f: HandshakeExceptionFactory, t: Option<AnyEnum>, params: seq<string>): (r: Created)
    ensures (t.None? || !t.value.HandshakeConstant?) ==>
      r == Err(E.Raise(E.IllegalArgument, "Invalid HandshakeExceptionType"))
    ensures Complete(f) && t.Some? && t.value.HandshakeConstant? ==> r == H.Create(t.value.h, params)
  {
    if t.None? || !t.value.HandshakeConstant? then Err(E.Raise(E.IllegalArgument, "Invalid HandshakeExceptionType"))
    else if t.value.h !in f.registered then Err(E.Raise(E.NullPointer, "exception map has no entry"))
    else H.Create(t.value.h, params)
  }

  function BadRequest(f: HandshakeExceptionFactory, message: string): (r: Created)
    ensures Complete(f) ==> r == Ok(E.Raise(E.BadRequest, message))
  {
    Cast(Create(f, Some(HandshakeConstant(H.BadRequest)), [message]), E.BadRequest)
  }

  function HandshakeAlreadyExists(f: HandshakeExceptionFactory, handshakeName: string): (r: Created)
    ensures Complete(f) ==> r == H.Create(H.HandshakeAlreadyExists, [handshakeName]) && r.Ok?
    ensures Complete(f) ==> r.value.cls == E.HandshakeAlreadyExists
  {
    Cast(Create(f, Some(HandshakeConstant(H.HandshakeAlreadyExists)), [handshakeName]), E.HandshakeAlreadyExists)
  }

  function HandshakeNotFound(f: HandshakeExceptionFactory, identifier: string): (r: Created)
    ensures Complete(f) ==> r == H.Create(H.HandshakeNotFound, [identifier]) && r.Ok?
    ensures Complete(f) ==> r.value.cls == E.HandshakeNotFound
  {
    Cast(Create(f, Some(HandshakeConstant(H.HandshakeNotFound)), [identifier]), E.HandshakeNotFound)
  }

  function ReceiverNotFound(f: HandshakeExceptionFactory, username: string): (r: Created)
    ensures Complete(f) ==> r == H.Create(H.ReceiverNotFound, [username]) && r.Ok?
    ensures Complete(f) ==> r.value.cls == E.HandshakeReceiverNotFound
  {
    Cast(Create(f, Some(HandshakeConstant(H.ReceiverNotFound)), [username]), E.HandshakeReceiverNotFound)
  }

  function InitiatorNotFound(f: HandshakeExceptionFactory, username: string): (r: Created)
    ensures Complete(f) ==> r == H.Create(H.InitiatorNotFound, [username]) && r.Ok?
    ensures Complete(f) ==> r.value.cls == E.HandshakeInitiatorNotFound
  {
    Cast(Create(f, Some(HandshakeConstant(H.InitiatorNotFound)), [username]), E.HandshakeInitiatorNotFound)
  }

  /** databaseError names a DATABASE_ERROR constant that HandshakeExceptionType
      does not declare; it is modelled as a DatabaseException carrying the
      message, the shape that constant has in the other two enums. */
  function DatabaseError(f: HandshakeExceptionFactory, message: string): (r: Created)
    ensures r.Ok? && r.value.cls == E.Database && r.value.message == message
  {
    Ok(E.Raise(E.Database, message))
  }

  function ServiceUnavailable(f: HandshakeExceptionFactory, message: string): (r: Created)
    ensures Complete(f) ==> r == Ok(E.Raise(E.HandshakeServiceUnavailable, message))
  {
    Cast(Create(f, Some(HandshakeConstant(H.HandshakeServiceUnavailable)), [message]), E.HandshakeServiceUnavailable)
  }
}
