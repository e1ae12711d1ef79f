/** The store side of a Spring Data repository, as the services see it: a
    derived `Optional<T> findBy...` query, and the outcomes of a read or a save
    that the database, not the service, decides. */
module Repository {
  import opened Common
  import E = Exceptions

  /** Whether a repository read answers or throws (connection lost, timeout). */
  datatype ReadStatus = Answered | ReadFailed(message: string)

  /** What `repository.save(entity)` does: stores it, breaks a database
      constraint (the message of the most specific cause), or fails otherwise. */
  datatype SaveOutcome = Saved | IntegrityViolation(cause: string) | SaveFailed(message: string)

  /** The message of Spring's IncorrectResultSizeDataAccessException; the real
      one also names the number of rows. */
  const NON_UNIQUE_RESULT := "query did not return a unique result"

  /** A derived query returning `Optional<T>`: empty when no row matches, the
      row when one does, IncorrectResultSizeDataAccessException when several do. */
  function FindOne<T>(s: seq<T>, p: T -> bool): (r: Result<Option<T>, E.Exception>)
    ensures r.Ok? && r.value.None? <==> forall i :: 0 <= i < |s| ==> !p(s[i])
    ensures r.Ok? && r.value.Some? ==> r.value.value in s && p(r.value.value) && Count(s, p) == 1
    ensures r.Err? <==> Count(s, p) > 1
    ensures r.Err? ==> r.error == E.Raise(E.IncorrectResultSize, NON_UNIQUE_RESULT)
  {
    var n := Count(s, p);
    if n == 0 then Ok(None)
    else if n == 1 then Ok(Some(FindFirst(s, p).value))
    else Err(E.Raise(E.IncorrectResultSize, NON_UNIQUE_RESULT))
  }

  /** The DataAccessException a failed read or save throws into the service,
      carrying the driver's message. */
  function DataAccessError(message: string): (e: E.Exception)
    ensures e.cls == E.DataAccess && e.message == message
  {
    E.Raise(E.DataAccess, message)
  }
}

/** user/UserServiceImpl: guarded lookups, existence checks, the username list
    and saving, over the user table. */
module Users {
  import opened Common
  import opened Exceptions
  import opened ExceptionMessages
  import opened Repository
  import GF = GeneralFactory

  /** The persisted fields of a user; the password is stored encoded. */
  datatype User = User(username: string, email: string, password: string)

  /** The user table, in the order findAll returns it. */
  type UserStore = seq<User>

  predicate HasUsername(store: UserStore, username: string)
  {
    exists i :: 0 <= i < |store| && store[i].username == username
  }

  predicate HasEmail(store: UserStore, email: string)
  {
    exists i :: 0 <= i < |store| && store[i].email == email
  }

  /** The unique constraints of the user table. */
  predicate Unique(store: UserStore)
  {
    && (forall i, j :: 0 <= i < j < |store| ==> store[i].username != store[j].username)
    && (forall i, j :: 0 <= i < j < |store| ==> store[i].email != store[j].email)
  }

  function ByUsername(name: string): User -> bool
  {
    (u: User) => u.username == name
  }

  function ByEmail(email: string): User -> bool
  {
    (u: User) => u.email == email
  }

  /** Under the unique constraints a key matches at most one row. */
  lemma UniqueKeysMatchOnce(store: UserStore, key: string)
    ensures Unique(store) ==> Count(store, ByUsername(key)) <= 1 && Count(store, ByEmail(key)) <= 1
  {
    if Unique(store) {
      CountAtMostOne(store, ByUsername(key));
      CountAtMostOne(store, ByEmail(key));
    }
  }

  /** findByUsername: a null or blank name is refused before the store is
      read; otherwise the user with that name, or UserNotFoundException
      naming the input. */
  function FindByUsername(store: UserStore, username: Option<string>): (r: Result<User, Exception>)
    ensures NullOrBlank(username) ==> r == Err(Raise(BadRequest, "Username cannot be empty"))
    ensures r.Ok? ==> !NullOrBlank(username) && r.value in store && r.value.username == username.value
    ensures !NullOrBlank(username) && !HasUsername(store, username.value) ==>
      r == Err(Raise(UserNotFound, UserNotFoundWith(username.value)))
    ensures Unique(store) && !NullOrBlank(username) && HasUsername(store, username.value) ==> r.Ok?
  {
    GF.BuiltIsComplete();
    if NullOrBlank(username) then Err(Thrown(GF.BadRequest(GF.Built, "Username cannot be empty")))
    else
      var name := username.value;
      UniqueKeysMatchOnce(store, name);
      match FindOne(store, ByUsername(name))
      case Err(e) => Err(e)
      case Ok(None) => Err(Thrown(GF.UserNotFound(GF.Built, name)))
      case Ok(Some(u)) => Ok(u)
  }

  /** findByEmail: the same, keyed on the email. */
  function FindByEmail(store: UserStore, email: Option<string>): (r: Result<User, Exception>)
    ensures NullOrBlank(email) ==> r == Err(Raise(BadRequest, "Email cannot be empty"))
    ensures r.Ok? ==> !NullOrBlank(email) && r.value in store && r.value.email == email.value
    ensures !NullOrBlank(email) && !HasEmail(store, email.value) ==>
      r == Err(Raise(UserNotFound, UserNotFoundWith(email.value)))
    ensures Unique(store) && !NullOrBlank(email) && HasEmail(store, email.value) ==> r.Ok?
  {
    GF.BuiltIsComplete();
    if NullOrBlank(email) then Err(Thrown(GF.BadRequest(GF.Built, "Email cannot be empty")))
    else
      var address := email.value;
      UniqueKeysMatchOnce(store, address);
      match FindOne(store, ByEmail(address))
      case Err(e) => Err(e)
      case Ok(None) => Err(Thrown(GF.UserNotFound(GF.Built, address)))
      case Ok(Some(u)) => Ok(u)
  }

  /** users(): one username per stored user, in store order; a failing read
      becomes a service-unavailable exception carrying its message. */
  function Usernames(store: UserStore, read: ReadStatus): (r: Result<seq<string>, Exception>)
    ensures read.Answered? ==>
      r.Ok? && |r.value| == |store| && (forall i :: 0 <= i < |store| ==> r.value[i] == store[i].username)
    ensures read.ReadFailed? ==>
      r == Err(Raise(ServiceUnavailable, "Failed to retrieve user list: " + read.message))
  {
    GF.BuiltIsComplete();
    match read
    case Answered => Ok(Map(store, (u: User) => u.username))
    case ReadFailed(m) => Err(Thrown(GF.ServiceUnavailable(GF.Built, "Failed to retrieve user list: " + m)))
  }

  /** usernameExists: blank input is refused; otherwise the store's membership
      answer, or a database error when the store cannot answer. */
  function UsernameExists(store: UserStore, username: Option<string>, read: ReadStatus): (r: Result<bool, Exception>)
    ensures NullOrBlank(username) ==> r == Err(Raise(BadRequest, "Username cannot be empty"))
    ensures !NullOrBlank(username) && read.Answered? ==> r == Ok(HasUsername(store, username.value))
    ensures !NullOrBlank(username) && read.ReadFailed? ==>
      r == Err(Raise(Database, "Failed to check username existence"))
  {
    GF.BuiltIsComplete();
    if NullOrBlank(username) then Err(Thrown(GF.BadRequest(GF.Built, "Username cannot be empty")))
    else if read.ReadFailed? then Err(Thrown(GF.DatabaseError(GF.Built, "Failed to check username existence")))
    else Ok(HasUsername(store, username.value))
  }

  /** emailExists: the same, keyed on the email. */
  function EmailExists(store: UserStore, email: Option<string>, read: ReadStatus): (r: Result<bool, Exception>)
    ensures NullOrBlank(email) ==> r == Err(Raise(BadRequest, "Email cannot be empty"))
    ensures !NullOrBlank(email) && read.Answered? ==> r == Ok(HasEmail(store, email.value))
    ensures !NullOrBlank(email) && read.ReadFailed? ==>
      r == Err(Raise(Database, "Failed to check email existence"))
  {
    GF.BuiltIsComplete();
    if NullOrBlank(email) then Err(Thrown(GF.BadRequest(GF.Built, "Email cannot be empty")))
    else if read.ReadFailed? then Err(Thrown(GF.DatabaseError(GF.Built, "Failed to check email existence")))
    else Ok(HasEmail(store, email.value))
  }

  /** saveUser: `null` is refused. A saved user whose name is not yet stored
      is appended; one whose name is stored is written over that row, as the
      repository's save merges an entity it already holds (a new entity under
      a taken name is the constraint violation `outcome` reports). A constraint
      violation or any other failure becomes a database error and the store is
      left as it was. */
  function SaveUser(store: UserStore, user: Option<User>, outcome: SaveOutcome): (r: Result<(User, UserStore), Exception>)
    ensures user.None? ==> r == Err(Raise(BadRequest, "User cannot be null"))
    ensures user.Some? && outcome.Saved? && !HasUsername(store, user.value.username) ==>
      r == Ok((user.value, store + [user.value]))
    ensures user.Some? && outcome.Saved? && HasUsername(store, user.value.username) ==>
      && r.Ok? && r.value.0 == user.value && |r.value.1| == |store|
      && forall i :: 0 <= i < |store| ==>
           r.value.1[i] == (if store[i].username == user.value.username then user.value else store[i])
    ensures user.Some? && outcome.IntegrityViolation? ==>
      r == Err(Raise(Database, "Database constraint violation: " + outcome.cause))
    ensures user.Some? && outcome.SaveFailed? ==>
      r == Err(Raise(Database, "Failed to save user: " + outcome.message))
  {
    GF.BuiltIsComplete();
    match user
    case None => Err(Thrown(GF.BadRequest(GF.Built, "User cannot be null")))
    case Some(u) =>
      match outcome
      case Saved =>
        if HasUsername(store, u.username) then Ok((u, Map(store, (x: User) => if x.username == u.username then u else x)))
        else Ok((u, store + [u]))
      case IntegrityViolation(cause) => Err(Thrown(GF.DatabaseError(GF.Built, "Database constraint violation: " + cause)))
      case SaveFailed(m) => Err(Thrown(GF.DatabaseError(GF.Built, "Failed to save user: " + m)))
  }

  /** Saving a user exactly as stored changes nothing: the row it merges into
      is itself. */
  lemma SaveStoredUserChangesNothing(store: UserStore, u: User)
    requires Unique(store) && u in store
    ensures SaveUser(store, Some(u), Saved) == Ok((u, store))
  {
    var k :| 0 <= k < |store| && store[k] == u;
    assert HasUsername(store, u.username);
    var s := SaveUser(store, Some(u), Saved).value.1;
    forall i | 0 <= i < |store|
      ensures s[i] == store[i]
    {
      if store[i].username == u.username {
        assert i == k;
      }
    }
    assert s == store;
  }

  /** usernameExists answers true exactly when findByUsername finds a user, on
      a store that keeps its unique constraints. */
  lemma ExistsAgreesWithFind(store: UserStore, username: string)
    requires Unique(store) && !IsBlank(username)
    ensures UsernameExists(store, Some(username), Answered) == Ok(FindByUsername(store, Some(username)).Ok?)
    ensures EmailExists(store, Some(username), Answered) == Ok(FindByEmail(store, Some(username)).Ok?)
  {
  }

  /** Saving a user whose name and email are new keeps the store unique, and
      the user can then be found under either key. */
  lemma {:induction false} SaveThenFind(store: UserStore, u: User)
    requires Unique(store) && !HasUsername(store, u.username) && !HasEmail(store, u.email)
    requires !IsBlank(u.username) && !IsBlank(u.email)
    ensures SaveUser(store, Some(u), Saved).Ok?
    ensures Unique(SaveUser(store, Some(u), Saved).value.1)
    ensures FindByUsername(SaveUser(store, Some(u), Saved).value.1, Some(u.username)) == Ok(u)
    ensures FindByEmail(SaveUser(store, Some(u), Saved).value.1, Some(u.email)) == Ok(u)
  {
    var s := store + [u];
    assert s[|store|] == u;
    assert Unique(s) by {
      forall i, j | 0 <= i < j < |s|
        ensures s[i].username != s[j].username && s[i].email != s[j].email
      {
        if j == |store| {
          assert s[i] == store[i];
        } else {
          assert s[i] == store[i] && s[j] == store[j];
        }
      }
    }
    assert HasUsername(s, u.username);
    assert HasEmail(s, u.email);
    var byName := FindByUsername(s, Some(u.username));
    assert byName.Ok? && byName.value.username == u.username;
    var i :| 0 <= i < |s| && s[i] == byName.value;
    assert i == |store|;
    var byEmail := FindByEmail(s, Some(u.email));
    var k :| 0 <= k < |s| && s[k] == byEmail.value;
    assert k == |store|;
  }
}
