/** What an enum constant's `create(String... params)` hands back, and the
    message texts the enums share. */
module ExceptionMessages {
  import opened Common
  import E = Exceptions

  /** `Ok` for the exception `create` returns, `Err` for one it throws while
      building it. */
  type Created = Result<E.Exception, E.Exception>

  /** The exception that propagates once the caller throws what `create` gave. */
  function Thrown(r: Created): (e: E.Exception)
    ensures r.Ok? ==> e == r.value
    ensures r.Err? ==> e == r.error
  {
    match r
    case Ok(x) => x
    case Err(x) => x
  }

  /** `params[0]` on an empty varargs array. */
  function FirstParamMissing(): (e: E.Exception)
    ensures e.cls == E.ArrayIndexOutOfBounds
  {
    E.Raise(E.ArrayIndexOutOfBounds, "Index 0 out of bounds for length 0")
  }

  /** The first parameter if there is one, else the default message. */
  function FirstOr(params: seq<string>, default: string): (m: string)
    ensures |params| > 0 ==> m == params[0]
    ensures |params| == 0 ==> m == default
  {
    if |params| > 0 then params[0] else default
  }

  function AlreadyTaken(p: string): string { "Username '" + p + "' is already taken" }
  function UserNotFoundWith(p: string): string { "User not found with identifier: " + p }
  function HandshakeNotFoundWith(p: string): string { "Handshake not found with identifier: " + p }

  const INVALID_USERNAME_OR_PASSWORD := "Invalid username or password"
  const ACCOUNT_IS_DISABLED := "Account is disabled"
  const ACCOUNT_IS_LOCKED := "Account is locked"
  const SERVICE_UNAVAILABLE_DEFAULT := "Service unavailable"
  const DATABASE_ERROR_DEFAULT := "Database operation failed"

  /** Equal strings with the same fixed prefix and suffix have the same middle:
      a message that embeds a parameter between fixed texts determines it. */
  lemma AffixCancel(pre: string, p: string, q: string, post: string)
    requires pre + p + post == pre + q + post
    ensures p == q
  {
    var a, b := pre + p + post, pre + q + post;
    assert |p| == |q|;
    forall i | 0 <= i < |p|
      ensures p[i] == q[i]
    {
      assert a[|pre| + i] == p[i];
      assert b[|pre| + i] == q[i];
    }
  }
}

/** types/ExceptionType: nine constants, each with its own `create`. */
module GeneralExceptionTypes {
  import opened Common
  import E = Exceptions
  import opened ExceptionMessages

  datatype ExceptionType =
    | UserAlreadyExists
    | UserNotFound
    | InvalidCredentials
    | HandshakeNotFound
    | BadRequest
    | AccountDisabled
    | ServiceUnavailable
    | DatabaseError
    | AccountLocked

  /** ExceptionType.values(), in declaration order. */
  const Values: seq<ExceptionType> :=
    [UserAlreadyExists, UserNotFound, InvalidCredentials, HandshakeNotFound, BadRequest,
     AccountDisabled, ServiceUnavailable, DatabaseError, AccountLocked]

  /** The enum constant's name, as `toString()` prints it. */
  function Name(t: ExceptionType): string
  {
    match t
    case UserAlreadyExists => "USER_ALREADY_EXISTS"
    case UserNotFound => "USER_NOT_FOUND"
    case InvalidCredentials => "INVALID_CREDENTIALS"
    case HandshakeNotFound => "HANDSHAKE_NOT_FOUND"
    case BadRequest => "BAD_REQUEST"
    case AccountDisabled => "ACCOUNT_DISABLED"
    case ServiceUnavailable => "SERVICE_UNAVAILABLE"
    case DatabaseError => "DATABASE_ERROR"
    case AccountLocked => "ACCOUNT_LOCKED"
  }

  /** The constants whose `create` reads `params[0]` unconditionally. */
  predicate ReadsFirstParam(t: ExceptionType)
  {
    t.UserAlreadyExists? || t.UserNotFound? || t.HandshakeNotFound? || t.BadRequest?
  }

  /** The exception class each constant instantiates. */
  function DeclaredClass(t: ExceptionType): E.ExceptionClass
  {
    match t
    case UserAlreadyExists => E.UserAlreadyExists
    case UserNotFound => E.UserNotFound
    case InvalidCredentials | AccountDisabled => E.InvalidCredentials
    case HandshakeNotFound => E.HandshakeNotFound
    case BadRequest => E.BadRequest
    case ServiceUnavailable => E.ServiceUnavailable
    case DatabaseError => E.Database
    case AccountLocked => E.AccountLocked
  }

  /** `t.create(params)`: the constant's exception, or the out-of-bounds
      exception thrown when it reads a missing first parameter. */
  function Create(t: ExceptionType, params: seq<string>): (r: Created)
    ensures r.Err? <==> ReadsFirstParam(t) && |params| == 0
    ensures r.Err? ==> r.error == FirstParamMissing()
    ensures r.Ok? ==> r.value.cls == DeclaredClass(t) && r.value.cause.None?
  {
    match t
    case UserAlreadyExists =>
      if |params| == 0 then Err(FirstParamMissing()) else Ok(E.Raise(E.UserAlreadyExists, AlreadyTaken(params[0])))
    case UserNotFound =>
      if |params| == 0 then Err(FirstParamMissing()) else Ok(E.Raise(E.UserNotFound, UserNotFoundWith(params[0])))
    case InvalidCredentials => Ok(E.Raise(E.InvalidCredentials, INVALID_USERNAME_OR_PASSWORD))
    case HandshakeNotFound =>
      if |params| == 0 then Err(FirstParamMissing()) else Ok(E.Raise(E.HandshakeNotFound, HandshakeNotFoundWith(params[0])))
    case BadRequest =>
      if |params| == 0 then Err(FirstParamMissing()) else Ok(E.Raise(E.BadRequest, params[0]))
    case AccountDisabled => Ok(E.Raise(E.InvalidCredentials, ACCOUNT_IS_DISABLED))
    case ServiceUnavailable => Ok(E.Raise(E.ServiceUnavailable, FirstOr(params, SERVICE_UNAVAILABLE_DEFAULT)))
    case DatabaseError => Ok(E.Raise(E.Database, FirstOr(params, DATABASE_ERROR_DEFAULT)))
    case AccountLocked => Ok(E.Raise(E.AccountLocked, FirstOr(params, ACCOUNT_IS_LOCKED)))
  }

  /** Every constant is listed by values(), and only once. */
  lemma ValuesEnumerateAll(t: ExceptionType)
    ensures t in Values
    ensures forall i, j :: 0 <= i < j < |Values| ==> Values[i] != Values[j]
  {
  }

  /** The parameters each constant honours: BAD_REQUEST's message is its first
      parameter verbatim; the three defaulted constants use the first parameter
      when given and their fixed default otherwise; the two credential constants
      ignore their parameters; the others embed the first parameter. */
  lemma CreateMessages(t: ExceptionType, params: seq<string>)
    ensures t == BadRequest && |params| > 0 ==> Create(t, params).value.message == params[0]
    ensures (t == ServiceUnavailable || t == DatabaseError || t == AccountLocked) && |params| > 0 ==>
      Create(t, params).value.message == params[0]
    ensures t == ServiceUnavailable && |params| == 0 ==> Create(t, params).value.message == "Service unavailable"
    ensures t == DatabaseError && |params| == 0 ==> Create(t, params).value.message == "Database operation failed"
    ensures t == AccountLocked && |params| == 0 ==> Create(t, params).value.message == "Account is locked"
    ensures t == InvalidCredentials ==> Create(t, params).value.message == "Invalid username or password"
    ensures t == AccountDisabled ==> Create(t, params).value.message == "Account is disabled"
    ensures t == UserNotFound && |params| > 0 ==>
      Create(t, params).value.message == "User not found with identifier: " + params[0]
    ensures t == HandshakeNotFound && |params| > 0 ==>
      Create(t, params).value.message == "Handshake not found with identifier: " + params[0]
    ensures t == UserAlreadyExists && |params| > 0 ==>
      Create(t, params).value.message == "Username '" + params[0] + "' is already taken"
  {
  }

  /** Only the first parameter matters: later ones are ignored. */
  lemma {:induction false} CreateIgnoresExtraParams(t: ExceptionType, params: seq<string>, extra: seq<string>)
    requires |params| > 0
    ensures Create(t, params + extra) == Create(t, params)
  {
    assert (params + extra)[0] == params[0];
  }
}

/** user/UserExceptionType: the general constants without HANDSHAKE_NOT_FOUND. */
module UserExceptionTypes {
  import opened Common
  import E = Exceptions
  import opened ExceptionMessages
  import G = GeneralExceptionTypes

  datatype UserExceptionType =
    | UserAlreadyExists
    | UserNotFound
    | InvalidCredentials
    | BadRequest
    | AccountDisabled
    | ServiceUnavailable
    | DatabaseError
    | AccountLocked

  /** UserExceptionType.values(), in declaration order. */
  const Values: seq<UserExceptionType> :=
    [UserAlreadyExists, UserNotFound, InvalidCredentials, BadRequest,
     AccountDisabled, ServiceUnavailable, DatabaseError, AccountLocked]

  predicate ReadsFirstParam(t: UserExceptionType)
  {
    t.UserAlreadyExists? || t.UserNotFound? || t.BadRequest?
  }

  /** `t.create(params)`. */
  function Create(t: UserExceptionType, params: seq<string>): (r: Created)
    ensures r.Err? <==> ReadsFirstParam(t) && |params| == 0
    ensures t == BadRequest && |params| > 0 ==> r == Ok(E.Raise(E.BadRequest, params[0]))
  {
    match t
    case UserAlreadyExists =>
      if |params| == 0 then Err(FirstParamMissing()) else Ok(E.Raise(E.UserAlreadyExists, AlreadyTaken(params[0])))
    case UserNotFound =>
      if |params| == 0 then Err(FirstParamMissing()) else Ok(E.Raise(E.UserNotFound, UserNotFoundWith(params[0])))
    case InvalidCredentials => Ok(E.Raise(E.InvalidCredentials, INVALID_USERNAME_OR_PASSWORD))
    case BadRequest =>
      if |params| == 0 then Err(FirstParamMissing()) else Ok(E.Raise(E.BadRequest, params[0]))
    case AccountDisabled => Ok(E.Raise(E.InvalidCredentials, ACCOUNT_IS_DISABLED))
    case ServiceUnavailable => Ok(E.Raise(E.ServiceUnavailable, FirstOr(params, SERVICE_UNAVAILABLE_DEFAULT)))
    case DatabaseError => Ok(E.Raise(E.Database, FirstOr(params, DATABASE_ERROR_DEFAULT)))
    case AccountLocked => Ok(E.Raise(E.AccountLocked, FirstOr(params, ACCOUNT_IS_LOCKED)))
  }

  /** The general constant of the same name. */
  function General(t: UserExceptionType): (g: G.ExceptionType)
    ensures g != G.HandshakeNotFound
  {
    match t
    case UserAlreadyExists => G.UserAlreadyExists
    case UserNotFound => G.UserNotFound
    case InvalidCredentials => G.InvalidCredentials
    case BadRequest => G.BadRequest
    case AccountDisabled => G.AccountDisabled
    case ServiceUnavailable => G.ServiceUnavailable
    case DatabaseError => G.DatabaseError
    case AccountLocked => G.AccountLocked
  }

  /** Each user constant builds exactly what the general constant of the same
      name builds, for every parameter list: same class, same message, same
      defaults, same failure on a missing first parameter. */
  lemma SameAsGeneral(t: UserExceptionType, params: seq<string>)
    ensures Create(t, params) == G.Create(General(t), params)
    ensures ReadsFirstParam(t) == G.ReadsFirstParam(General(t))
  {
  }

  /** Every general constant except HANDSHAKE_NOT_FOUND has a user twin. */
  lemma GeneralHasTwin(g: G.ExceptionType)
    requires g != G.HandshakeNotFound
    ensures exists t :: General(t) == g
  {
    match g
    case UserAlreadyExists => assert General(UserAlreadyExists) == g;
    case UserNotFound => assert General(UserNotFound) == g;
    case InvalidCredentials => assert General(InvalidCredentials) == g;
    case BadRequest => assert General(BadRequest) == g;
    case AccountDisabled => assert General(AccountDisabled) == g;
    case ServiceUnavailable => assert General(ServiceUnavailable) == g;
    case DatabaseError => assert General(DatabaseError) == g;
    case AccountLocked => assert General(AccountLocked) == g;
  }

  lemma ValuesEnumerateAll(t: UserExceptionType)
    ensures t in Values
  {
  }
}

/** handshake/HandshakeExceptionType: six constants. */
module HandshakeExceptionTypes {
  import opened Common
  import E = Exceptions
  import opened ExceptionMessages

  datatype HandshakeExceptionType =
    | HandshakeAlreadyExists
    | HandshakeNotFound
    | HandshakeServiceUnavailable
    | ReceiverNotFound
    | InitiatorNotFound
    | BadRequest

  /** HandshakeExceptionType.values(), in declaration order. */
  const Values: seq<HandshakeExceptionType> :=
    [HandshakeAlreadyExists, HandshakeNotFound, HandshakeServiceUnavailable,
     ReceiverNotFound, InitiatorNotFound, BadRequest]

  /** Only the service-unavailable constant tolerates an empty parameter list. */
  predicate ReadsFirstParam(t: HandshakeExceptionType)
  {
    !t.HandshakeServiceUnavailable?
  }

  function DeclaredClass(t: HandshakeExceptionType): E.ExceptionClass
  {
    match t
    case HandshakeAlreadyExists => E.HandshakeAlreadyExists
    case HandshakeNotFound => E.HandshakeNotFound
    case HandshakeServiceUnavailable => E.HandshakeServiceUnavailable
    case ReceiverNotFound => E.HandshakeReceiverNotFound
    case InitiatorNotFound => E.HandshakeInitiatorNotFound
    case BadRequest => E.BadRequest
  }

  /** The fixed text around the first parameter in each message that embeds it. */
  function Affixes(t: HandshakeExceptionType): (string, string)
  {
    match t
    case HandshakeAlreadyExists => ("Handshake with name '", "' already exists")
    case HandshakeNotFound => ("Handshake with name '", "' not found")
    case HandshakeServiceUnavailable => ("", "")
    case ReceiverNotFound => ("No handshake found for receiver '", "'")
    case InitiatorNotFound => ("No handshake found for initiator '", "'")
    case BadRequest => ("", "")
  }

  /** `t.create(params)`. */
  function Create(t: HandshakeExceptionType, params: seq<string>): (r: Created)
    ensures r.Err? <==> ReadsFirstParam(t) && |params| == 0
    ensures r.Err? ==> r.error == FirstParamMissing()
    ensures r.Ok? ==> r.value.cls == DeclaredClass(t) && r.value.cause.None?
  {
    if ReadsFirstParam(t) && |params| == 0 then Err(FirstParamMissing())
    else
      match t
      case HandshakeAlreadyExists =>
        Ok(E.Raise(E.HandshakeAlreadyExists, "Handshake with name '" + params[0] + "' already exists"))
      case HandshakeNotFound =>
        Ok(E.Raise(E.HandshakeNotFound, "Handshake with name '" + params[0] + "' not found"))
      case HandshakeServiceUnavailable =>
        Ok(E.Raise(E.HandshakeServiceUnavailable, FirstOr(params, "Handshake service unavailable")))
      case ReceiverNotFound =>
        Ok(E.Raise(E.HandshakeReceiverNotFound, "No handshake found for receiver '" + params[0] + "'"))
      case InitiatorNotFound =>
        Ok(E.Raise(E.HandshakeInitiatorNotFound, "No handshake found for initiator '" + params[0] + "'"))
      case BadRequest => Ok(E.Raise(E.BadRequest, params[0]))
  }

  /** The four name-carrying constants embed the first parameter between
      fixed texts, so two different names never give the same message;
      BAD_REQUEST passes it through; service-unavailable has its own default. */
  lemma {:induction false} CreateMessages(t: HandshakeExceptionType, p: string, q: string)
    ensures t != HandshakeServiceUnavailable && p != q ==> Create(t, [p]).value.message != Create(t, [q]).value.message
    ensures Create(BadRequest, [p]).value.message == p
    ensures Create(HandshakeServiceUnavailable, []).value.message == "Handshake service unavailable"
    ensures Create(HandshakeServiceUnavailable, [p]).value.message == p
  {
    if t != HandshakeServiceUnavailable && p != q && Create(t, [p]).value.message == Create(t, [q]).value.message {
      var (pre, post) := Affixes(t);
      assert Create(t, [p]).value.message == pre + p + post;
      assert Create(t, [q]).value.message == pre + q + post;
      AffixCancel(pre, p, q, post);
    }
  }

  lemma ValuesEnumerateAll(t: HandshakeExceptionType)
    ensures t in Values
  {
  }
}
