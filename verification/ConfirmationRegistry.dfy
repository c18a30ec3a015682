/** The command confirmation registry: requests wait, become ready, and end; session grants answer later requests. */
module ConfirmationRegistry {
  import opened Outcomes
  import opened Collections

  const MAXIMUM_PENDING_CONFIRMATIONS := 32
  const MAXIMUM_TERMINAL_CONFIRMATIONS := 1024

  datatype ActionTimeCommand =
    | GitPush
    | PackageInstall
    | CargoFetch
    | UnregisteredTool
    | CredentialUse
    | AdministratorOperation
    | DestructiveOperation
  {
    predicate AllowsRoomSession() {
      GitPush? || PackageInstall? || CargoFetch?
    }
  }

  datatype Scope = Scope(
    roomId: string,
    sessionId: string,
    workspaceKey: string,
    command: ActionTimeCommand,
    targetLabel: string)

  datatype Decision = AllowOnce | AllowRoomSession | Deny | Dismiss | TimeOut

  datatype Denial = OwnerDenied | Dismissed | TimedOut | SessionLifetimeNotAllowed

  datatype Lifetime = Once | RoomSession

  datatype Authorization = Authorization(requestId: string, scope: Scope, lifetime: Lifetime)

  datatype RegisterOutcome = Pending | AlreadyPending | AuthorizedByRoomSession

  datatype ResolveOutcome = AuthorizationReady | Denied(denial: Denial)

  datatype ContractError =
    | RequestIdConflict
    | RequestAlreadyResolved
    | UnknownRequest
    | TooManyPending
    | TerminalRegistryFull
    | ScopeMismatch

  datatype Ready = Ready(scope: Scope, lifetime: Lifetime)

  datatype Registry = Registry(
    pending: map<string, Scope>,
    ready: map<string, Ready>,
    terminal: map<string, string>,
    grants: set<Scope>)
  {
    function Ids(): set<string> {
      pending.Keys + ready.Keys + terminal.Keys
    }
  }

  const EMPTY := Registry(map[], map[], map[], {})

  function RegisterRequest(r: Registry, id: string, scope: Scope): (Registry, Result<RegisterOutcome, ContractError>) {
    if id in r.pending then
      (r, if r.pending[id] == scope then Ok(AlreadyPending) else Err(RequestIdConflict))
    else if id in r.ready || id in r.terminal then (r, Err(RequestAlreadyResolved))
    else if |r.terminal| >= MAXIMUM_TERMINAL_CONFIRMATIONS then (r, Err(TerminalRegistryFull))
    else if |r.pending| + |r.ready| >= MAXIMUM_PENDING_CONFIRMATIONS then (r, Err(TooManyPending))
    else if scope in r.grants then
      (r.(ready := r.ready[id := Ready(scope, RoomSession)]), Ok(AuthorizedByRoomSession))
    else
      (r.(pending := r.pending[id := scope]), Ok(Pending))
  }

  function FinishTerminal(r: Registry, id: string, session: string): Result<Registry, ContractError> {
    if |r.terminal| >= MAXIMUM_TERMINAL_CONFIRMATIONS then Err(TerminalRegistryFull)
    else Ok(r.(terminal := r.terminal[id := session]))
  }

  /** Ends a request that has already been taken out of `pending` or `ready`; if that fails it is lost. */
  function Finish<T>(taken: Registry, id: string, session: string, reply: Result<T, ContractError>)
    : (Registry, Result<T, ContractError>)
  {
    match FinishTerminal(taken, id, session)
    case Err(e) => (taken, Err(e))
    case Ok(r) => (r, reply)
  }

  function ResolveRequest(r: Registry, id: string, decision: Decision)
    : (Registry, Result<ResolveOutcome, ContractError>)
  {
    if |r.terminal| >= MAXIMUM_TERMINAL_CONFIRMATIONS then (r, Err(TerminalRegistryFull))
    else if id in r.ready || id in r.terminal then (r, Err(RequestAlreadyResolved))
    else if id !in r.pending then (r, Err(UnknownRequest))
    else
      var scope := r.pending[id];
      var taken := r.(pending := r.pending - {id});
      match decision
      case AllowOnce =>
        (taken.(ready := taken.ready[id := Ready(scope, Once)]), Ok(AuthorizationReady))
      case AllowRoomSession =>
        if scope.command.AllowsRoomSession() then
          (taken.(ready := taken.ready[id := Ready(scope, RoomSession)], grants := taken.grants + {scope}),
           Ok(AuthorizationReady))
        else
          Finish(taken, id, scope.sessionId, Ok(Denied(SessionLifetimeNotAllowed)))
      case Deny => Finish(taken, id, scope.sessionId, Ok(Denied(OwnerDenied)))
      case Dismiss => Finish(taken, id, scope.sessionId, Ok(Denied(Dismissed)))
      case TimeOut => Finish(taken, id, scope.sessionId, Ok(Denied(TimedOut)))
  }

  function ConsumeReady(r: Registry, id: string, expected: Scope): (Registry, Result<Authorization, ContractError>) {
    if |r.terminal| >= MAXIMUM_TERMINAL_CONFIRMATIONS then (r, Err(TerminalRegistryFull))
    else if id !in r.ready then
      (r, Err(if id in r.terminal then RequestAlreadyResolved else UnknownRequest))
    else
      var ready := r.ready[id];
      var taken := r.(ready := r.ready - {id});
      if ready.scope != expected then Finish(taken, id, ready.scope.sessionId, Err(ScopeMismatch))
      else Finish(taken, id, ready.scope.sessionId, Ok(Authorization(id, ready.scope, ready.lifetime)))
  }

  function EndSession(r: Registry, session: string): Registry {
    Registry(
      map id <- r.pending | r.pending[id].sessionId != session :: r.pending[id],
      map id <- r.ready | r.ready[id].scope.sessionId != session :: r.ready[id],
      map id <- r.terminal | r.terminal[id] != session :: r.terminal[id],
      set scope <- r.grants | scope.sessionId != session)
  }

  function Size(r: Registry): nat {
    |r.pending| + |r.ready| + |r.terminal| + |r.grants|
  }

  // ---- The moves a request can make ----

  predicate Readied(r: Registry, r': Registry, id: string, lifetime: Lifetime) {
    && id in r.pending
    && r' == r.(pending := r.pending - {id},
                ready := r.ready[id := Ready(r.pending[id], lifetime)],
                grants := if lifetime.RoomSession? then r.grants + {r.pending[id]} else r.grants)
  }

  predicate Refused(r: Registry, r': Registry, id: string) {
    && id in r.pending
    && r' == r.(pending := r.pending - {id}, terminal := r.terminal[id := r.pending[id].sessionId])
  }

  predicate Finished(r: Registry, r': Registry, id: string) {
    && id in r.ready
    && r' == r.(ready := r.ready - {id}, terminal := r.terminal[id := r.ready[id].scope.sessionId])
  }

  predicate IsFree(r: Registry, id: string) {
    id !in r.ready && id !in r.terminal && |r.terminal| < MAXIMUM_TERMINAL_CONFIRMATIONS
  }

  /** What a decision does. The grant is given only to commands that allow one. */
  lemma ResolveMoves(r: Registry, id: string, decision: Decision)
    ensures var (r', reply) := ResolveRequest(r, id, decision);
            && (reply.Err? ==> r' == r)
            && (reply == Ok(AuthorizationReady) ==>
                  && IsFree(r, id)
                  && Readied(r, r', id, if decision.AllowOnce? then Once else RoomSession)
                  && (decision.AllowOnce? || (decision.AllowRoomSession? && r.pending[id].command.AllowsRoomSession())))
            && (reply.Ok? && reply.value.Denied? ==> IsFree(r, id) && Refused(r, r', id))
            && (reply.Ok? <==> IsFree(r, id) && id in r.pending)
            && (reply.Ok? ==>
                  (reply.value.AuthorizationReady? <==>
                     decision.AllowOnce? || (decision.AllowRoomSession? && r.pending[id].command.AllowsRoomSession())))
  {}

  /** A consumed authorization is the ready one under that id, and it cannot be consumed again. */
  lemma ConsumeMoves(r: Registry, id: string, expected: Scope)
    ensures var (r', reply) := ConsumeReady(r, id, expected);
            && (reply.Err? && reply.error != ScopeMismatch ==> r' == r)
            && (reply.Ok? || reply == Err(ScopeMismatch) ==>
                  Finished(r, r', id) && |r.terminal| < MAXIMUM_TERMINAL_CONFIRMATIONS)
            && (reply.Ok? ==>
                  reply.value == Authorization(id, expected, r.ready[id].lifetime) && r.ready[id].scope == expected)
            && (reply == Err(ScopeMismatch) ==> r.ready[id].scope != expected)
  {}

  // ---- Limits and conservation ----

  /** A resolved request of the same session, which stays until that session ends. */
  predicate Backs(r: Registry, id: string, grant: Scope) {
    || (id in r.ready && r.ready[id].scope.sessionId == grant.sessionId)
    || (id in r.terminal && r.terminal[id] == grant.sessionId)
  }

  ghost predicate Injective<K, V>(m: map<K, V>) {
    forall a <- m, b <- m :: a != b ==> m[a] != m[b]
  }

  /** `grantor` names, for every session grant, a different resolved request. */
  ghost predicate Grantors(r: Registry, grantor: map<Scope, string>) {
    && grantor.Keys == r.grants
    && (forall a <- r.grants :: Backs(r, grantor[a], a))
    && Injective(grantor)
  }

  /** Every id is in one place, and the places are within their limits. */
  predicate WithinLimits(r: Registry) {
    && (forall id <- r.pending :: id !in r.ready && id !in r.terminal)
    && (forall id <- r.ready :: id !in r.terminal)
    && |r.pending| + |r.ready| <= MAXIMUM_PENDING_CONFIRMATIONS
    && |r.terminal| <= MAXIMUM_TERMINAL_CONFIRMATIONS
  }

  ghost predicate Granted(r: Registry) {
    (forall a <- r.grants :: a.command.AllowsRoomSession()) && exists grantor :: Grantors(r, grantor)
  }

  ghost predicate Sound(r: Registry) {
    WithinLimits(r) && Granted(r)
  }

  lemma {:induction false} InjectionBound(grantor: map<Scope, string>, scopes: set<Scope>, ids: set<string>)
    requires scopes <= grantor.Keys
    requires forall a <- scopes :: grantor[a] in ids
    requires forall a <- scopes, b <- scopes :: a != b ==> grantor[a] != grantor[b]
    ensures |scopes| <= |ids|
  {
    if a :| a in scopes {
      InjectionBound(grantor, scopes - {a}, ids - {grantor[a]});
    }
  }

  /** The grant set has no limit of its own, yet it cannot outgrow the requests that were resolved. */
  lemma GrantsAreBounded(r: Registry)
    requires Sound(r)
    ensures |r.grants| <= |r.ready| + |r.terminal| <= MAXIMUM_PENDING_CONFIRMATIONS + MAXIMUM_TERMINAL_CONFIRMATIONS
  {
    var grantor :| Grantors(r, grantor);
    InjectionBound(grantor, r.grants, r.ready.Keys + r.terminal.Keys);
  }

  lemma RegisterKeepsSound(r: Registry, id: string, scope: Scope)
    requires Sound(r)
    ensures Sound(RegisterRequest(r, id, scope).0)
  {
    hide WithinLimits, RegisterRequest, Grantors;
    RegisterKeepsLimits(r, id, scope);
    RegisterOnlyAdds(r, id, scope);
    var grantor :| Grantors(r, grantor);
    GrantorsStay(r, RegisterRequest(r, id, scope).0, grantor);
  }

  lemma RegisterOnlyAdds(r: Registry, id: string, scope: Scope)
    ensures var r' := RegisterRequest(r, id, scope).0;
            && r'.grants == r.grants && r'.terminal == r.terminal
            && (forall x <- r.ready :: x in r'.ready && r'.ready[x] == r.ready[x])
  {}

  lemma RegisterKeepsLimits(r: Registry, id: string, scope: Scope)
    requires WithinLimits(r)
    ensures WithinLimits(RegisterRequest(r, id, scope).0)
  {}

  lemma MovesKeepLimits(r: Registry, r': Registry, id: string, lifetime: Lifetime)
    requires WithinLimits(r) && |r.terminal| < MAXIMUM_TERMINAL_CONFIRMATIONS
    requires (IsFree(r, id) && (Readied(r, r', id, lifetime) || Refused(r, r', id))) || Finished(r, r', id)
    ensures WithinLimits(r')
  {}

  lemma GrantorsStay(r: Registry, r': Registry, grantor: map<Scope, string>)
    requires Grantors(r, grantor) && r'.grants == r.grants
    requires forall id <- r.ready :: id in r'.ready && r'.ready[id] == r.ready[id]
    requires forall id <- r.terminal :: id in r'.terminal && r'.terminal[id] == r.terminal[id]
    ensures Grantors(r', grantor)
  {
    forall a <- r'.grants ensures Backs(r', grantor[a], a) {
      assert Backs(r, grantor[a], a);
    }
  }

  lemma ExtendInjective<K, V>(m: map<K, V>, k: K, v: V)
    requires Injective(m) && forall a <- m :: m[a] != v
    ensures Injective(m[k := v]) && m[k := v].Keys == m.Keys + {k}
  {}

  lemma StillBacked(r: Registry, r': Registry, id: string, other: string, grant: Scope)
    requires IsFree(r, id) && Readied(r, r', id, RoomSession) && Backs(r, other, grant)
    ensures other != id && Backs(r', other, grant)
  {}

  lemma NewlyBacked(r: Registry, r': Registry, id: string)
    requires Readied(r, r', id, RoomSession)
    ensures id in r.pending && Backs(r', id, r.pending[id]) && r'.grants == r.grants + {r.pending[id]}
  {}

  lemma NewGrantor(r: Registry, r': Registry, id: string, grantor: map<Scope, string>)
    requires Grantors(r, grantor) && IsFree(r, id) && Readied(r, r', id, RoomSession)
    ensures Grantors(r', grantor[r.pending[id] := id])
  {
    hide Backs, Readied, IsFree, Injective;
    forall a <- r.grants ensures grantor[a] != id && Backs(r', grantor[a], a) {
      StillBacked(r, r', id, grantor[a], a);
    }
    NewlyBacked(r, r', id);
    ExtendInjective(grantor, r.pending[id], id);
  }

  lemma ReadiedKeepsGrants(r: Registry, r': Registry, id: string, lifetime: Lifetime)
    requires Granted(r) && IsFree(r, id) && Readied(r, r', id, lifetime)
    requires lifetime.RoomSession? ==> r.pending[id].command.AllowsRoomSession()
    ensures Granted(r')
  {
    var grantor :| Grantors(r, grantor);
    hide Grantors;
    if lifetime.Once? {
      GrantorsStay(r, r', grantor);
    } else {
      NewGrantor(r, r', id, grantor);
    }
  }

  lemma EndingKeepsGrants(r: Registry, r': Registry, id: string)
    requires Granted(r) && (Finished(r, r', id) || (IsFree(r, id) && Refused(r, r', id)))
    requires id !in r.terminal
    ensures Granted(r')
  {
    var grantor :| Grantors(r, grantor);
    forall a <- r.grants ensures Backs(r', grantor[a], a) {
      assert Backs(r, grantor[a], a);
    }
    assert Grantors(r', grantor);
  }

  lemma ResolveKeepsSound(r: Registry, id: string, decision: Decision)
    requires Sound(r)
    ensures Sound(ResolveRequest(r, id, decision).0)
  {
    hide ResolveRequest, Granted, WithinLimits;
    ResolveMoves(r, id, decision);
    var (r', reply) := ResolveRequest(r, id, decision);
    if reply == Ok(AuthorizationReady) {
      MovesKeepLimits(r, r', id, if decision.AllowOnce? then Once else RoomSession);
      ReadiedKeepsGrants(r, r', id, if decision.AllowOnce? then Once else RoomSession);
    } else if reply.Ok? {
      MovesKeepLimits(r, r', id, Once);
      EndingKeepsGrants(r, r', id);
    }
  }

  lemma ConsumeKeepsSound(r: Registry, id: string, expected: Scope)
    requires Sound(r)
    ensures Sound(ConsumeReady(r, id, expected).0)
  {
    hide ConsumeReady, Granted;
    ConsumeMoves(r, id, expected);
    var (r', reply) := ConsumeReady(r, id, expected);
    if r' != r {
      MovesKeepLimits(r, r', id, Once);
      EndingKeepsGrants(r, r', id);
    }
  }

  lemma EndKeepsSound(r: Registry, session: string)
    requires Sound(r)
    ensures Sound(EndSession(r, session))
  {
    EndKeepsLimits(r, session);
    var grantor :| Grantors(r, grantor);
    EndKeepsGrants(r, session, grantor);
  }

  lemma EndKeepsLimits(r: Registry, session: string)
    requires WithinLimits(r)
    ensures WithinLimits(EndSession(r, session))
  {
    var r' := EndSession(r, session);
    SubsetSize(r'.pending.Keys, r.pending.Keys);
    SubsetSize(r'.ready.Keys, r.ready.Keys);
    SubsetSize(r'.terminal.Keys, r.terminal.Keys);
  }

  lemma EndKeepsGrants(r: Registry, session: string, grantor: map<Scope, string>)
    requires Grantors(r, grantor)
    ensures Grantors(EndSession(r, session), map a <- r.grants | a.sessionId != session :: grantor[a])
  {
    var r' := EndSession(r, session);
    forall a <- r'.grants ensures Backs(r', grantor[a], a) {
      assert Backs(r, grantor[a], a);
    }
  }

  lemma MovesKeepIds(r: Registry, r': Registry, id: string, lifetime: Lifetime)
    requires Readied(r, r', id, lifetime) || Refused(r, r', id) || Finished(r, r', id)
    ensures r'.Ids() == r.Ids()
  {
    assert forall x :: x in r'.Ids() <==> x in r.Ids();
  }

  /**
   No request is lost: resolving and consuming keep every id, because `finish_terminal` cannot fail where
   they call it.
   */
  lemma NothingIsLost(r: Registry, id: string, decision: Decision, expected: Scope)
    ensures ResolveRequest(r, id, decision).0.Ids() == r.Ids()
    ensures ConsumeReady(r, id, expected).0.Ids() == r.Ids()
  {
    hide ResolveRequest, ConsumeReady, Registry.Ids;
    ResolveMoves(r, id, decision);
    ConsumeMoves(r, id, expected);
    var r1, r2 := ResolveRequest(r, id, decision).0, ConsumeReady(r, id, expected).0;
    if r1 != r { MovesKeepIds(r, r1, id, if decision.AllowOnce? then Once else RoomSession); }
    if r2 != r { MovesKeepIds(r, r2, id, Once); }
  }

  class CommandConfirmationRegistry {
    var pending: map<string, Scope>
    var ready: map<string, Ready>
    var terminal: map<string, string>
    var grants: set<Scope>

    ghost function State(): Registry
      reads this
    {
      Registry(pending, ready, terminal, grants)
    }

    constructor ()
      ensures State() == EMPTY
    {
      pending, ready, terminal, grants := map[], map[], map[], {};
    }

    method Register(id: string, scope: Scope) returns (reply: Result<RegisterOutcome, ContractError>)
      modifies this
      ensures (State(), reply) == RegisterRequest(old(State()), id, scope)
    {
      if id in pending {
        return if pending[id] == scope then Ok(AlreadyPending) else Err(RequestIdConflict);
      }
      if id in ready || id in terminal {
        return Err(RequestAlreadyResolved);
      }
      if |terminal| >= MAXIMUM_TERMINAL_CONFIRMATIONS {
        return Err(TerminalRegistryFull);
      }
      if |pending| + |ready| >= MAXIMUM_PENDING_CONFIRMATIONS {
        return Err(TooManyPending);
      }
      if scope in grants {
        ready := ready[id := Ready(scope, RoomSession)];
        return Ok(AuthorizedByRoomSession);
      }
      pending := pending[id := scope];
      reply := Ok(Pending);
    }

    method Resolve(id: string, decision: Decision) returns (reply: Result<ResolveOutcome, ContractError>)
      modifies this
      ensures (State(), reply) == ResolveRequest(old(State()), id, decision)
    {
      if |terminal| >= MAXIMUM_TERMINAL_CONFIRMATIONS {
        return Err(TerminalRegistryFull);
      }
      if id in ready || id in terminal {
        return Err(RequestAlreadyResolved);
      }
      if id !in pending {
        return Err(UnknownRequest);
      }
      var scope := pending[id];
      pending := pending - {id};
      match decision {
        case AllowOnce =>
          ready := ready[id := Ready(scope, Once)];
          reply := Ok(AuthorizationReady);
        case AllowRoomSession =>
          if scope.command.AllowsRoomSession() {
            grants := grants + {scope};
            ready := ready[id := Ready(scope, RoomSession)];
            reply := Ok(AuthorizationReady);
          } else {
            reply := Deny(id, scope, SessionLifetimeNotAllowed);
          }
        case Deny => reply := Deny(id, scope, OwnerDenied);
        case Dismiss => reply := Deny(id, scope, Dismissed);
        case TimeOut => reply := Deny(id, scope, TimedOut);
      }
    }

    method Deny(id: string, scope: Scope, denial: Denial) returns (reply: Result<ResolveOutcome, ContractError>)
      modifies this
      ensures (State(), reply) == Finish(old(State()), id, scope.sessionId, Ok(Denied(denial)))
    {
      var error := FinishInPlace(id, scope.sessionId);
      reply := if error.Some? then Err(error.value) else Ok(Denied(denial));
    }

    method ConsumeAuthorization(id: string, expected: Scope) returns (reply: Result<Authorization, ContractError>)
      modifies this
      ensures (State(), reply) == ConsumeReady(old(State()), id, expected)
    {
      if |terminal| >= MAXIMUM_TERMINAL_CONFIRMATIONS {
        return Err(TerminalRegistryFull);
      }
      if id !in ready {
        return Err(if id in terminal then RequestAlreadyResolved else UnknownRequest);
      }
      var taken := ready[id];
      ready := ready - {id};
      var error := FinishInPlace(id, taken.scope.sessionId);
      if error.Some? {
        return Err(error.value);
      }
      if taken.scope != expected {
        return Err(ScopeMismatch);
      }
      reply := Ok(Authorization(id, taken.scope, taken.lifetime));
    }

    method EndRoomSession(session: string) returns (removed: int)
      modifies this
      ensures State() == EndSession(old(State()), session)
      ensures removed == old(Size(State())) - Size(State())
    {
      var before := |pending| + |ready| + |terminal| + |grants|;
      pending := map id <- pending | pending[id].sessionId != session :: pending[id];
      ready := map id <- ready | ready[id].scope.sessionId != session :: ready[id];
      terminal := map id <- terminal | terminal[id] != session :: terminal[id];
      grants := set scope <- grants | scope.sessionId != session;
      removed := before - (|pending| + |ready| + |terminal| + |grants|);
    }

    /** `finish_terminal`. */
    method FinishInPlace(id: string, session: string) returns (error: Option<ContractError>)
      modifies this
      ensures match FinishTerminal(old(State()), id, session)
              case Err(e) => error == Some(e) && State() == old(State())
              case Ok(r) => error.None? && State() == r
    {
      if |terminal| >= MAXIMUM_TERMINAL_CONFIRMATIONS {
        return Some(TerminalRegistryFull);
      }
      terminal := terminal[id := session];
      error := None;
    }
  }
}
