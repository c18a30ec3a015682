/** Where every authorization comes from, over all histories of one registry. */
module ConfirmationHistory {
  import opened Outcomes
  import opened ConfirmationRegistry

  datatype Call =
    | RegisterCall(id: string, scope: Scope)
    | ResolveCall(id: string, decision: Decision)
    | ConsumeCall(id: string, expected: Scope)
    | EndCall(session: string)

  function Apply(r: Registry, c: Call): Registry {
    match c
    case RegisterCall(id, scope) => RegisterRequest(r, id, scope).0
    case ResolveCall(id, decision) => ResolveRequest(r, id, decision).0
    case ConsumeCall(id, expected) => ConsumeReady(r, id, expected).0
    case EndCall(session) => EndSession(r, session)
  }

  predicate Registers(r: Registry, c: Call, id: string, scope: Scope) {
    && c == RegisterCall(id, scope)
    && (RegisterRequest(r, id, scope).1 == Ok(Pending)
        || RegisterRequest(r, id, scope).1 == Ok(AuthorizedByRoomSession))
  }

  predicate Allows(r: Registry, c: Call, id: string, lifetime: Lifetime) {
    && c == ResolveCall(id, if lifetime.Once? then AllowOnce else AllowRoomSession)
    && ResolveRequest(r, id, c.decision).1 == Ok(AuthorizationReady)
  }

  predicate Consumes(r: Registry, c: Call, auth: Authorization) {
    c.ConsumeCall? && ConsumeReady(r, c.id, c.expected).1 == Ok(auth)
  }

  ghost predicate History(states: seq<Registry>, calls: seq<Call>) {
    && |states| == |calls| + 1
    && states[0] == EMPTY
    && forall k :: 0 <= k < |calls| ==> Moves(states[k], calls[k], states[k + 1])
  }

  predicate Moves(r: Registry, c: Call, r': Registry) {
    r' == Apply(r, c)
  }

  /** The session does not end in calls `i` to `k - 1`. */
  predicate NoEnd(calls: seq<Call>, i: nat, k: nat, session: string)
    requires k <= |calls|
  {
    forall m :: i <= m < k ==> calls[m] != EndCall(session)
  }

  lemma {:induction false} HistoryIsSound(states: seq<Registry>, calls: seq<Call>, k: nat)
    requires History(states, calls) && k <= |calls|
    ensures Sound(states[k])
  {
    if k == 0 {
      assert Grantors(EMPTY, map[]);
    } else {
      hide Sound, RegisterRequest, ResolveRequest, ConsumeReady, EndSession;
      HistoryIsSound(states, calls, k - 1);
      assert Moves(states[k - 1], calls[k - 1], states[k]);
      match calls[k - 1]
      case RegisterCall(id, scope) => RegisterKeepsSound(states[k - 1], id, scope);
      case ResolveCall(id, decision) => ResolveKeepsSound(states[k - 1], id, decision);
      case ConsumeCall(id, expected) => ConsumeKeepsSound(states[k - 1], id, expected);
      case EndCall(session) => EndKeepsSound(states[k - 1], session);
    }
  }

  /** In every reachable registry ids are in one place, all limits hold, and grants number at most 1056. */
  lemma ReachableLimits(states: seq<Registry>, calls: seq<Call>, k: nat)
    requires History(states, calls) && k <= |calls|
    ensures WithinLimits(states[k]) && |states[k].grants| <= 1056
    ensures |states[k].grants| <= |states[k].ready| + |states[k].terminal|
  {
    HistoryIsSound(states, calls, k);
    GrantsAreBounded(states[k]);
  }

  // ---- One call backwards ----

  /** A request that is pending after a call was pending before it, or the call registered it. */
  lemma PendingBefore(r: Registry, c: Call, id: string)
    requires id in Apply(r, c).pending
    ensures var scope := Apply(r, c).pending[id];
            (id in r.pending && r.pending[id] == scope && c != EndCall(scope.sessionId)) || Registers(r, c, id, scope)
  {
    match c
    case RegisterCall(_, _) =>
    case ResolveCall(id', decision) =>
      hide ResolveRequest;
      ResolveMoves(r, id', decision);
    case ConsumeCall(id', expected) =>
      hide ConsumeReady;
      ConsumeMoves(r, id', expected);
    case EndCall(_) =>
  }

  predicate WasReady(r: Registry, c: Call, id: string, now: Ready) {
    || (id in r.ready && r.ready[id] == now && c != EndCall(now.scope.sessionId))
    || (id in r.pending && r.pending[id] == now.scope && Allows(r, c, id, now.lifetime))
    || (now.lifetime.RoomSession? && now.scope in r.grants && Registers(r, c, id, now.scope))
  }

  predicate WasGranted(r: Registry, c: Call, scope: Scope) {
    || (scope in r.grants && c != EndCall(scope.sessionId))
    || (c.ResolveCall? && c.id in r.pending && r.pending[c.id] == scope && Allows(r, c, c.id, RoomSession))
  }

  lemma BeforeResolve(r: Registry, id: string, decision: Decision)
    ensures var c := ResolveCall(id, decision);
            var r' := ResolveRequest(r, id, decision).0;
            && (forall other <- r'.ready :: WasReady(r, c, other, r'.ready[other]))
            && (forall scope <- r'.grants :: WasGranted(r, c, scope))
  {
    hide ResolveRequest, IsFree;
    ResolveMoves(r, id, decision);
  }

  /** A request that is ready after a call was ready before, or was allowed by it, or was registered under a grant. */
  lemma ReadyBefore(r: Registry, c: Call, id: string)
    requires id in Apply(r, c).ready
    ensures WasReady(r, c, id, Apply(r, c).ready[id])
  {
    hide ResolveRequest, ConsumeReady;
    match c
    case RegisterCall(_, _) =>
    case ResolveCall(id', decision) => BeforeResolve(r, id', decision);
    case ConsumeCall(id', expected) => ConsumeMoves(r, id', expected);
    case EndCall(_) =>
  }

  /** A grant that holds after a call held before it, or the call gave it. */
  lemma GrantBefore(r: Registry, c: Call, scope: Scope)
    requires scope in Apply(r, c).grants
    ensures WasGranted(r, c, scope)
  {
    hide ResolveRequest, ConsumeReady;
    match c
    case RegisterCall(_, _) =>
    case ResolveCall(id', decision) => BeforeResolve(r, id', decision);
    case ConsumeCall(id', expected) => ConsumeMoves(r, id', expected);
    case EndCall(_) =>
  }

  /** A terminal request stays terminal until its own session ends. */
  lemma TerminalAfter(r: Registry, c: Call, id: string)
    requires WithinLimits(r) && id in r.terminal && c != EndCall(r.terminal[id])
    ensures id in Apply(r, c).terminal && Apply(r, c).terminal[id] == r.terminal[id]
  {
    match c
    case RegisterCall(_, _) =>
    case ResolveCall(id', decision) =>
      hide ResolveRequest;
      ResolveMoves(r, id', decision);
    case ConsumeCall(id', expected) =>
      hide ConsumeReady;
      ConsumeMoves(r, id', expected);
    case EndCall(_) =>
  }

  // ---- Histories backwards ----

  predicate Live(r: Registry, id: string) {
    id in r.pending || id in r.ready
  }

  lemma {:induction false} PendingOrigin(states: seq<Registry>, calls: seq<Call>, k: nat, id: string) returns (i: nat)
    requires History(states, calls) && k <= |calls| && id in states[k].pending
    ensures i < k && Registers(states[i], calls[i], id, states[k].pending[id])
    ensures NoEnd(calls, i, k, states[k].pending[id].sessionId)
    ensures forall m :: i < m <= k ==> Live(states[m], id)
  {
    hide Apply, Registers;
    assert k > 0;
    assert Moves(states[k - 1], calls[k - 1], states[k]);
    PendingBefore(states[k - 1], calls[k - 1], id);
    if Registers(states[k - 1], calls[k - 1], id, states[k].pending[id]) {
      i := k - 1;
      RegistersIsNoEnd(states[i], calls[i], id, states[k].pending[id]);
    } else {
      i := PendingOrigin(states, calls, k - 1, id);
    }
  }

  lemma RegistersIsNoEnd(r: Registry, c: Call, id: string, scope: Scope)
    requires Registers(r, c, id, scope)
    ensures !c.EndCall?
  {}

  lemma {:induction false} GrantOrigin(states: seq<Registry>, calls: seq<Call>, k: nat, scope: Scope) returns (j: nat)
    requires History(states, calls) && k <= |calls| && scope in states[k].grants
    ensures j < k && AllowedBy(states, calls, j, scope, RoomSession) && NoEnd(calls, j, k, scope.sessionId)
  {
    hide Apply, Allows;
    assert k > 0;
    assert Moves(states[k - 1], calls[k - 1], states[k]);
    GrantBefore(states[k - 1], calls[k - 1], scope);
    if scope in states[k - 1].grants && calls[k - 1] != EndCall(scope.sessionId) {
      j := GrantOrigin(states, calls, k - 1, scope);
    } else {
      j := k - 1;
    }
  }

  /** Call `j` is an owner's permission for a pending request with exactly this scope. */
  predicate AllowedBy(states: seq<Registry>, calls: seq<Call>, j: nat, scope: Scope, lifetime: Lifetime)
    requires j < |calls| && |states| == |calls| + 1
  {
    && calls[j].ResolveCall?
    && calls[j].id in states[j].pending && states[j].pending[calls[j].id] == scope
    && Allows(states[j], calls[j], calls[j].id, lifetime)
  }

  /** Registration `i` and permission `j` account for an authorization that is ready before call `k`. */
  ghost predicate Accounts(states: seq<Registry>, calls: seq<Call>, i: nat, j: nat, k: nat, id: string, ready: Ready)
    requires History(states, calls) && k <= |calls|
  {
    && i < k && j < k
    && Registers(states[i], calls[i], id, ready.scope)
    && NoEnd(calls, i, k, ready.scope.sessionId)
    && (forall m :: i < m <= k ==> Live(states[m], id))
    && AllowedBy(states, calls, j, ready.scope, ready.lifetime)
    && NoEnd(calls, j, k, ready.scope.sessionId)
    && (ready.lifetime.Once? ==> i < j && calls[j].id == id)
  }

  lemma {:induction false} ReadyOrigin(states: seq<Registry>, calls: seq<Call>, k: nat, id: string)
    returns (i: nat, j: nat)
    requires History(states, calls) && k <= |calls| && id in states[k].ready
    ensures Accounts(states, calls, i, j, k, id, states[k].ready[id])
  {
    hide Apply, Registers, Allows;
    assert k > 0;
    assert Moves(states[k - 1], calls[k - 1], states[k]);
    ReadyBefore(states[k - 1], calls[k - 1], id);
    var now := states[k].ready[id];
    if id in states[k - 1].ready && states[k - 1].ready[id] == now && calls[k - 1] != EndCall(now.scope.sessionId) {
      i, j := ReadyOrigin(states, calls, k - 1, id);
    } else if id in states[k - 1].pending && states[k - 1].pending[id] == now.scope
           && Allows(states[k - 1], calls[k - 1], id, now.lifetime) {
      AllowsIsResolve(states[k - 1], calls[k - 1], id, now.lifetime);
      i := PendingOrigin(states, calls, k - 1, id);
      j := k - 1;
    } else {
      i := k - 1;
      RegistersIsNoEnd(states[i], calls[i], id, now.scope);
      j := GrantOrigin(states, calls, k - 1, now.scope);
    }
  }

  lemma AllowsIsResolve(r: Registry, c: Call, id: string, lifetime: Lifetime)
    requires Allows(r, c, id, lifetime)
    ensures c.ResolveCall? && c.id == id && id in r.pending
    ensures lifetime.RoomSession? ==> r.pending[id].command.AllowsRoomSession()
  {
    ResolveMoves(r, id, c.decision);
  }

  /**
   Every consumed authorization carries exactly the scope registered under its id, and follows the owner's
   permission for that scope: for that very request, or for the room session, which has not ended since.
   */
  lemma AuthorizationHasOrigin(states: seq<Registry>, calls: seq<Call>, n: nat, auth: Authorization)
    requires History(states, calls) && n < |calls| && Consumes(states[n], calls[n], auth)
    ensures calls[n].expected == auth.scope
    ensures exists i, j :: Accounts(states, calls, i, j, n, auth.requestId, Ready(auth.scope, auth.lifetime))
    ensures auth.lifetime.RoomSession? ==> auth.scope.command.AllowsRoomSession()
  {
    hide Accounts, Allows, Apply;
    ConsumeMoves(states[n], calls[n].id, calls[n].expected);
    var i, j := ReadyOrigin(states, calls, n, auth.requestId);
    assert Accounts(states, calls, i, j, n, auth.requestId, Ready(auth.scope, auth.lifetime));
    AccountsAllowed(states, calls, i, j, n, auth.requestId, Ready(auth.scope, auth.lifetime));
  }

  lemma AccountsAllowed(states: seq<Registry>, calls: seq<Call>, i: nat, j: nat, k: nat, id: string, ready: Ready)
    requires History(states, calls) && k <= |calls| && Accounts(states, calls, i, j, k, id, ready)
    ensures ready.lifetime.RoomSession? ==> ready.scope.command.AllowsRoomSession()
  {
    AllowsIsResolve(states[j], calls[j], calls[j].id, ready.lifetime);
  }

  lemma {:induction false} TerminalUntilEnd(states: seq<Registry>, calls: seq<Call>, a: nat, b: nat, id: string)
    requires History(states, calls) && a <= b <= |calls| && id in states[a].terminal
    requires NoEnd(calls, a, b, states[a].terminal[id])
    ensures id in states[b].terminal && states[b].terminal[id] == states[a].terminal[id]
  {
    hide Apply, Sound;
    if a < b {
      TerminalUntilEnd(states, calls, a, b - 1, id);
      ReachableLimits(states, calls, b - 1);
      assert Moves(states[b - 1], calls[b - 1], states[b]);
      TerminalAfter(states[b - 1], calls[b - 1], id);
    }
  }

  /** One registration, at most one authorization: in between, the session ended and the id was registered anew. */
  lemma ConsumedOnce(
    states: seq<Registry>, calls: seq<Call>, n: nat, n': nat, first: Authorization, second: Authorization)
    requires History(states, calls) && n < n' < |calls| && first.requestId == second.requestId
    requires Consumes(states[n], calls[n], first) && Consumes(states[n'], calls[n'], second)
    ensures exists e, i :: n < e < i < n' && calls[e] == EndCall(first.scope.sessionId)
                           && Registers(states[i], calls[i], second.requestId, second.scope)
  {
    hide Apply, Registers, Allows, Sound;
    var id := first.requestId;
    ConsumeMoves(states[n], calls[n].id, calls[n].expected);
    ConsumeMoves(states[n'], calls[n'].id, calls[n'].expected);
    assert Moves(states[n], calls[n], states[n + 1]);
    ConsumedIsTerminal(states[n], calls[n], first);
    ReachableLimits(states, calls, n + 1);
    var i, j := ReadyOrigin(states, calls, n', id);
    assert !Live(states[n + 1], id) && i > n;
    if NoEnd(calls, n + 1, i, first.scope.sessionId) {
      TerminalUntilEnd(states, calls, n + 1, i, id);
      TerminalCannotRegister(states[i], calls[i], id, second.scope);
    }
  }

  lemma ConsumedIsTerminal(r: Registry, c: Call, auth: Authorization)
    requires Consumes(r, c, auth)
    ensures auth.requestId in Apply(r, c).terminal && Apply(r, c).terminal[auth.requestId] == auth.scope.sessionId
  {
    ConsumeMoves(r, c.id, c.expected);
  }

  lemma TerminalCannotRegister(r: Registry, c: Call, id: string, scope: Scope)
    requires id in r.terminal
    ensures !Registers(r, c, id, scope)
  {}

  // ---- A permission is honoured ----

  lemma ReadyAfter(r: Registry, c: Call, id: string)
    requires WithinLimits(r) && id in r.ready
    requires c != EndCall(r.ready[id].scope.sessionId) && !(c.ConsumeCall? && c.id == id)
    ensures id in Apply(r, c).ready && Apply(r, c).ready[id] == r.ready[id]
  {
    hide RegisterRequest, ResolveRequest, ConsumeReady;
    match c
    case RegisterCall(other, scope) => RegisterKeepsReady(r, other, scope, id);
    case ResolveCall(other, decision) => ResolveMoves(r, other, decision);
    case ConsumeCall(other, expected) => ConsumeMoves(r, other, expected);
    case EndCall(_) =>
  }

  lemma RegisterKeepsReady(r: Registry, other: string, scope: Scope, id: string)
    requires id in r.ready
    ensures var r' := RegisterRequest(r, other, scope).0; id in r'.ready && r'.ready[id] == r.ready[id]
  {}

  /** Nobody asks for the authorization of this id in calls `i` to `k - 1`. */
  predicate NotConsumed(calls: seq<Call>, i: nat, k: nat, id: string)
    requires k <= |calls|
  {
    forall m :: i <= m < k ==> !(calls[m].ConsumeCall? && calls[m].id == id)
  }

  lemma {:induction false} ReadyUntilTaken(states: seq<Registry>, calls: seq<Call>, a: nat, b: nat, id: string)
    requires History(states, calls) && a <= b <= |calls| && id in states[a].ready
    requires NoEnd(calls, a, b, states[a].ready[id].scope.sessionId) && NotConsumed(calls, a, b, id)
    ensures id in states[b].ready && states[b].ready[id] == states[a].ready[id]
  {
    hide Apply, Sound;
    if a < b {
      ReadyUntilTaken(states, calls, a, b - 1, id);
      ReachableLimits(states, calls, b - 1);
      assert Moves(states[b - 1], calls[b - 1], states[b]);
      ReadyAfter(states[b - 1], calls[b - 1], id);
    }
  }

  /**
   A ready authorization waits for its first consumer until the session ends. That consumer gets it exactly
   when the expected scope is the one that was allowed and the terminal registry has room.
   */
  lemma PermissionIsHonoured(states: seq<Registry>, calls: seq<Call>, a: nat, b: nat, id: string, expected: Scope)
    requires History(states, calls) && a <= b <= |calls| && id in states[a].ready
    requires NoEnd(calls, a, b, states[a].ready[id].scope.sessionId) && NotConsumed(calls, a, b, id)
    ensures var reply, ready := ConsumeReady(states[b], id, expected).1, states[a].ready[id];
            if |states[b].terminal| >= MAXIMUM_TERMINAL_CONFIRMATIONS then reply == Err(TerminalRegistryFull)
            else if expected == ready.scope then reply == Ok(Authorization(id, expected, ready.lifetime))
            else reply == Err(ScopeMismatch)
  {
    hide Apply, ConsumeReady, NoEnd, NotConsumed;
    ReadyUntilTaken(states, calls, a, b, id);
    ConsumesWaiting(states[b], id, expected);
  }

  lemma ConsumesWaiting(r: Registry, id: string, expected: Scope)
    requires id in r.ready
    ensures ConsumeReady(r, id, expected).1 ==
            if |r.terminal| >= MAXIMUM_TERMINAL_CONFIRMATIONS then Err(TerminalRegistryFull)
            else if expected == r.ready[id].scope then Ok(Authorization(id, expected, r.ready[id].lifetime))
            else Err(ScopeMismatch)
  {}
}
