/** What a client sees when a service failure reaches the global exception
    handler: the services' error translation composed with the handler's
    status table. */
module ClientResponses {
  import opened Common
  import opened Exceptions
  import opened ExceptionMessages
  import opened Envelope
  import opened Repository
  import opened AuthRequests
  import EH = ErrorHandler
  import SA = SecureAuth
  import LA = LegacyAuth
  import U = Users
  import HS = HandshakeService
  import HandshakeStore

  /** Secure login: a disabled or locked account is answered with 403 and the
      handler's fixed message for it. */
  lemma SecureAccountStatusIsForbidden(m: string)
    ensures EH.Handle(SA.Authenticate(Rejected(Raise(Disabled, m))).error)
      == EH.Response(403, Error("Account is disabled", 403))
    ensures EH.Handle(SA.Authenticate(Rejected(Raise(Locked, m))).error)
      == EH.Response(403, Error("Account is locked", 403))
  {
    assert IsA(Disabled, Disabled) && !IsA(Disabled, BadCredentials);
    assert SA.Authenticate(Rejected(Raise(Disabled, m))).error == Raise(Disabled, "Account is disabled");
    assert IsA(Locked, Locked) && !IsA(Locked, BadCredentials) && !IsA(Locked, Disabled);
    assert SA.Authenticate(Rejected(Raise(Locked, m))).error == Raise(Locked, "Account is locked");
    EH.AccountStatusResponses("Account is disabled");
    EH.AccountStatusResponses("Account is locked");
  }

  /** Secure login: every bad-credentials failure of the manager, the
      application's own locked-account exception included, is answered with
      401; that exception gives 403 only when it reaches the handler directly. */
  lemma SecureBadCredentialsIsUnauthorized(e: Exception)
    requires IsA(e.cls, BadCredentials)
    ensures EH.Handle(SA.Authenticate(Rejected(e)).error)
      == EH.Response(401, Error("Invalid username or password", 401))
    ensures e.cls == AccountLocked ==> EH.Handle(e).status == 403
  {
    EH.AuthenticationFailureResponses(Raise(BadCredentials, "Invalid credentials"));
    if e.cls == AccountLocked {
      EH.LockedAccountIsForbidden(e.message);
    }
  }

  /** Legacy login: a disabled account becomes an invalid-credentials
      exception, answered with 401 and the handler's credentials message. */
  lemma LegacyDisabledIsUnauthorized(req: LoginRequest, m: string)
    requires LA.Consulted(req)
    ensures EH.Handle(LA.Authenticate(req, Rejected(Raise(Disabled, m))).error)
      == EH.Response(401, Error("Invalid username or password", 401))
  {
    assert IsA(Disabled, Disabled) && !IsA(Disabled, BadCredentials);
    assert LA.Authenticate(req, Rejected(Raise(Disabled, m))).error == Raise(InvalidCredentials, ACCOUNT_IS_DISABLED);
    EH.AuthenticationFailureResponses(Raise(InvalidCredentials, ACCOUNT_IS_DISABLED));
  }

  /** Legacy login: a locked account becomes a bad request, answered with 400
      and the service's message. */
  lemma LegacyLockedIsBadRequest(req: LoginRequest, m: string)
    requires LA.Consulted(req)
    ensures EH.Handle(LA.Authenticate(req, Rejected(Raise(Locked, m))).error)
      == EH.Response(400, Error(LA.ACCOUNT_LOCKED_MESSAGE, 400))
  {
    assert IsA(Locked, Locked);
    assert LA.Authenticate(req, Rejected(Raise(Locked, m))).error == Raise(BadRequest, LA.ACCOUNT_LOCKED_MESSAGE);
    EH.ValidationResponses(Raise(BadRequest, LA.ACCOUNT_LOCKED_MESSAGE));
  }

  /** Legacy login: a failing authentication service also becomes a bad
      request, answered with 400 and the service's message. */
  lemma LegacyServiceDownIsBadRequest(req: LoginRequest, m: string)
    requires LA.Consulted(req)
    ensures EH.Handle(LA.Authenticate(req, Rejected(Raise(InternalAuthenticationService, m))).error)
      == EH.Response(400, Error(LA.AUTH_SERVICE_DOWN_MESSAGE, 400))
  {
    assert IsA(InternalAuthenticationService, AuthenticationService);
    assert LA.Authenticate(req, Rejected(Raise(InternalAuthenticationService, m))).error
      == Raise(BadRequest, LA.AUTH_SERVICE_DOWN_MESSAGE);
    EH.ValidationResponses(Raise(BadRequest, LA.AUTH_SERVICE_DOWN_MESSAGE));
  }

  /** Legacy login: missing credentials are answered with 400 before the
      manager is asked, whatever it would have said. */
  lemma LegacyMissingCredentialsAreBadRequests(req: LoginRequest, outcome: ManagerOutcome)
    requires !LA.Consulted(req)
    ensures EH.Handle(LA.Authenticate(req, outcome).error).status == 400
    ensures NullOrBlank(req.username) ==>
      EH.Handle(LA.Authenticate(req, outcome).error).body.message == LA.USERNAME_REQUIRED
  {
    EH.ValidationResponses(LA.Authenticate(req, outcome).error);
  }

  /** Creating a handshake under a taken name is answered with 503, not 409:
      the conflict is wrapped by the service's catch-all. */
  lemma DuplicateHandshakeIsUnavailable(users: U.UserStore, store: HandshakeStore.Store, req: HS.CreateRequest, save: SaveOutcome)
    requires U.FindByUsername(users, Some(req.initiatorUsername)).Ok?
    requires U.FindByUsername(users, Some(req.acceptorUsername)).Ok?
    requires HandshakeStore.HasName(store, req.handshakeName)
    ensures HS.CreateHandshake(users, store, Some(req), Answered, save).Err?
    ensures EH.Handle(HS.CreateHandshake(users, store, Some(req), Answered, save).error).status == 503
    ensures EH.Handle(Raise(Conflict, "Handshake with name '" + req.handshakeName + "' already exists")).status == 409
  {
    HS.DuplicateNameIsUnavailable(users, store, req, save);
    EH.UnavailableResponses(HS.CreateHandshake(users, store, Some(req), Answered, save).error);
    EH.ConflictResponses(Raise(Conflict, "Handshake with name '" + req.handshakeName + "' already exists"));
  }
}
