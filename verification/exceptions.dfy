/** The exception classes the backend throws and catches, with their
    superclass relation written out, and the exception value itself. */
module Exceptions {
  import opened Common

  /** One constructor per exception class. Classes with the same simple name in
      different packages are one class here. `RuntimeException` is the root and
      stands for every class the handlers and catch clauses do not name. */
  datatype ExceptionClass =
    | RuntimeException
    | IllegalArgument
    | ArrayIndexOutOfBounds
    | NullPointer
    | ClassCast
    | IllegalState
    | ConstraintViolation
    | MethodArgumentNotValid
    | BadRequest
    | Authentication
    | BadCredentials
    | InvalidCredentials
    | AccountLocked
    | UsernameNotFound
    | AccountStatus
    | Disabled
    | Locked
    | AuthenticationService
    | InternalAuthenticationService
    | UserNotFound
    | HandshakeNotFound
    | HandshakeReceiverNotFound
    | HandshakeInitiatorNotFound
    | Conflict
    | UserAlreadyExists
    | HandshakeAlreadyExists
    | DataAccess
    | DataIntegrityViolation
    | IncorrectResultSize
    | ServiceUnavailable
    | HandshakeServiceUnavailable
    | UserServiceUnavailable
    | Database
    | UnauthorizedAccess

  /** The direct superclass (`extends`); the root has none. */
  function Parent(c: ExceptionClass): Option<ExceptionClass>
  {
    match c
    case RuntimeException => None
    case InvalidCredentials => Some(BadCredentials)
    case AccountLocked => Some(InvalidCredentials)
    case BadCredentials | UsernameNotFound | AccountStatus | AuthenticationService => Some(Authentication)
    case Disabled | Locked => Some(AccountStatus)
    case InternalAuthenticationService => Some(AuthenticationService)
    case UserAlreadyExists | HandshakeAlreadyExists => Some(Conflict)
    case DataIntegrityViolation | IncorrectResultSize => Some(DataAccess)
    case HandshakeServiceUnavailable | UserServiceUnavailable => Some(ServiceUnavailable)
    case _ => Some(RuntimeException)
  }

  /** Distance from the root of the hierarchy. */
  function Depth(c: ExceptionClass): nat
  {
    match c
    case RuntimeException => 0
    case AccountLocked => 4
    case InvalidCredentials | Disabled | Locked | InternalAuthenticationService => 3
    case BadCredentials | UsernameNotFound | AccountStatus | AuthenticationService => 2
    case UserAlreadyExists | HandshakeAlreadyExists => 2
    case DataIntegrityViolation | IncorrectResultSize => 2
    case HandshakeServiceUnavailable | UserServiceUnavailable => 2
    case _ => 1
  }

  /** Every class but the root has a parent one level closer to the root. */
  lemma ParentIsShallower(c: ExceptionClass)
    ensures Parent(c).None? <==> c == RuntimeException
    ensures Parent(c).Some? ==> Depth(Parent(c).value) + 1 == Depth(c)
  {
  }

  /** The class and its superclasses, nearest first, ending at the root: the
      `extends` chains written out (`SuperclassesFollowParent`). */
  function Superclasses(c: ExceptionClass): seq<ExceptionClass>
  {
    match c
    case RuntimeException => [RuntimeException]
    case AccountLocked => [AccountLocked, InvalidCredentials, BadCredentials, Authentication, RuntimeException]
    case InvalidCredentials => [InvalidCredentials, BadCredentials, Authentication, RuntimeException]
    case Disabled | Locked => [c, AccountStatus, Authentication, RuntimeException]
    case InternalAuthenticationService => [c, AuthenticationService, Authentication, RuntimeException]
    case BadCredentials | UsernameNotFound | AccountStatus | AuthenticationService => [c, Authentication, RuntimeException]
    case UserAlreadyExists | HandshakeAlreadyExists => [c, Conflict, RuntimeException]
    case DataIntegrityViolation | IncorrectResultSize => [c, DataAccess, RuntimeException]
    case HandshakeServiceUnavailable | UserServiceUnavailable => [c, ServiceUnavailable, RuntimeException]
    case _ => [c, RuntimeException]
  }

  /** The chain is the class followed by its parent's chain. */
  lemma SuperclassesFollowParent(c: ExceptionClass)
    ensures Parent(c).None? ==> Superclasses(c) == [c]
    ensures Parent(c).Some? ==> Superclasses(c) == [c] + Superclasses(Parent(c).value)
  {
  }

  /** `c` is `d` or a subclass of it: Java's `instanceof` and catch-clause test. */
  predicate IsA(c: ExceptionClass, d: ExceptionClass)
  {
    d in Superclasses(c)
  }

  /** `instanceof` one `extends` step at a time. */
  lemma IsAStep(c: ExceptionClass, d: ExceptionClass)
    ensures IsA(c, d) <==> c == d || (Parent(c).Some? && IsA(Parent(c).value, d))
  {
    SuperclassesFollowParent(c);
  }

  /** Classes no other class extends, among those the handlers test with
      `instanceof`. */
  predicate IsLeaf(x: ExceptionClass)
  {
    x == ConstraintViolation || x == MethodArgumentNotValid || x == Disabled || x == DataIntegrityViolation
  }

  /** A leaf is nobody's parent. */
  lemma LeafHasNoChildren(c: ExceptionClass, x: ExceptionClass)
    requires IsLeaf(x)
    ensures Parent(c) != Some(x)
  {
  }

  /** An `instanceof` test against a leaf is a test for that very class. */
  lemma {:induction false} InstanceOfLeaf(c: ExceptionClass, x: ExceptionClass)
    requires IsLeaf(x)
    ensures IsA(c, x) <==> c == x
    decreases Depth(c)
  {
    if c != x && Parent(c).Some? {
      ParentIsShallower(c);
      IsAStep(c, x);
      LeafHasNoChildren(c, x);
      InstanceOfLeaf(Parent(c).value, x);
    }
  }

  /** The subclass relation of the source: AccountLockedException extends
      InvalidCredentialsException extends BadCredentialsException, and the
      handshake service-unavailable and already-exists exceptions extend the
      general ones. */
  lemma HierarchyFacts()
    ensures IsA(AccountLocked, InvalidCredentials) && IsA(InvalidCredentials, BadCredentials)
    ensures IsA(AccountLocked, BadCredentials)
    ensures IsA(HandshakeServiceUnavailable, ServiceUnavailable)
    ensures IsA(HandshakeAlreadyExists, Conflict) && IsA(UserAlreadyExists, Conflict)
  {
  }

  /** Disabled and locked accounts are not bad credentials, and Spring's
      LockedException is unrelated to the backend's AccountLockedException. */
  lemma AccountStatusIsNotBadCredentials()
    ensures !IsA(Disabled, BadCredentials) && !IsA(Locked, BadCredentials)
    ensures !IsA(AccountLocked, Locked) && !IsA(Locked, AccountLocked)
  {
  }

  /** Every class is a RuntimeException. */
  lemma {:induction false} EverythingIsRuntime(c: ExceptionClass)
    ensures IsA(c, RuntimeException)
    decreases Depth(c)
  {
    if c != RuntimeException {
      ParentIsShallower(c);
      IsAStep(c, RuntimeException);
      EverythingIsRuntime(Parent(c).value);
    }
  }

  /** The subclass relation is transitive. */
  lemma {:induction false} IsATransitive(a: ExceptionClass, b: ExceptionClass, c: ExceptionClass)
    requires IsA(a, b) && IsA(b, c)
    ensures IsA(a, c)
    decreases Depth(a)
  {
    if a != b {
      ParentIsShallower(a);
      IsAStep(a, b);
      IsATransitive(Parent(a).value, b, c);
      IsAStep(a, c);
    }
  }

  /** Two superclasses of one class lie on its single chain to the root, so
      one of them is a superclass of the other. */
  lemma {:induction false} AncestorsAreOrdered(c: ExceptionClass, d: ExceptionClass, e: ExceptionClass)
    requires IsA(c, d) && IsA(c, e)
    ensures IsA(d, e) || IsA(e, d)
    decreases Depth(c)
  {
    if c != d && c != e {
      ParentIsShallower(c);
      IsAStep(c, d);
      IsAStep(c, e);
      AncestorsAreOrdered(Parent(c).value, d, e);
    }
  }

  /** None of the classes on the way from Authentication to the root is one of
      the four AuthenticationException branches the services catch. */
  lemma AboveTheBranches(y: ExceptionClass)
    requires y in {BadCredentials, Disabled, Locked, AuthenticationService}
    ensures !IsA(Authentication, y) && !IsA(AccountStatus, y)
  {
  }

  /** Those four branches are unrelated to one another. */
  lemma AuthenticationBranchesUnrelated()
    ensures !IsA(BadCredentials, Disabled) && !IsA(Disabled, BadCredentials)
    ensures !IsA(BadCredentials, Locked) && !IsA(Locked, BadCredentials)
    ensures !IsA(BadCredentials, AuthenticationService) && !IsA(AuthenticationService, BadCredentials)
    ensures !IsA(Disabled, Locked) && !IsA(Locked, Disabled)
    ensures !IsA(Disabled, AuthenticationService) && !IsA(AuthenticationService, Disabled)
    ensures !IsA(Locked, AuthenticationService) && !IsA(AuthenticationService, Locked)
  {
    AboveTheBranches(BadCredentials);
    AboveTheBranches(Disabled);
    AboveTheBranches(Locked);
    AboveTheBranches(AuthenticationService);
  }

  /** A class under two unrelated classes does not exist. */
  lemma NotUnderBoth(c: ExceptionClass, x: ExceptionClass, y: ExceptionClass)
    requires !IsA(x, y) && !IsA(y, x)
    ensures !(IsA(c, x) && IsA(c, y))
  {
    if IsA(c, x) && IsA(c, y) {
      AncestorsAreOrdered(c, x, y);
    }
  }

  /** A class falls under at most one of those four branches. */
  lemma CatchBranchesDisjoint(c: ExceptionClass)
    ensures IsA(c, BadCredentials) ==> !IsA(c, Disabled) && !IsA(c, Locked) && !IsA(c, AuthenticationService)
    ensures IsA(c, Disabled) ==> !IsA(c, Locked) && !IsA(c, AuthenticationService)
    ensures IsA(c, Locked) ==> !IsA(c, AuthenticationService)
  {
    AuthenticationBranchesUnrelated();
    NotUnderBoth(c, BadCredentials, Disabled);
    NotUnderBoth(c, BadCredentials, Locked);
    NotUnderBoth(c, BadCredentials, AuthenticationService);
    NotUnderBoth(c, Disabled, Locked);
    NotUnderBoth(c, Disabled, AuthenticationService);
    NotUnderBoth(c, Locked, AuthenticationService);
  }

  /** A thrown exception: its class, its message, the message of its cause
      (`null` cause as `None`), and, for the two validation classes, the
      rendering of their field-error map. */
  datatype Exception = Exception(
    cls: ExceptionClass,
    message: string,
    cause: Option<string>,
    fieldErrors: string)

  /** An exception built with `new X(message)`. */
  function Raise(cls: ExceptionClass, message: string): (e: Exception)
    ensures e.cls == cls && e.message == message && e.cause.None?
  {
    Exception(cls, message, None, "")
  }
}
