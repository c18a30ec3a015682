/**
 What every call of the confirmation registry answers and moves, for all registries: exactly when each answer is
 given, and every map afterwards. Then, over histories, that a session grant answers later requests.
 */
module ConfirmationAnswers {
  import opened Outcomes
  import opened ConfirmationRegistry
  import opened ConfirmationHistory

  predicate Full(r: Registry) {
    |r.terminal| >= 1024
  }

  predicate Busy(r: Registry) {
    |r.pending| + |r.ready| >= 32
  }

  predicate IsResolved(r: Registry, id: string) {
    id in r.ready || id in r.terminal
  }

  /** An id that was never seen, in a registry with room for it. */
  predicate Admissible(r: Registry, id: string) {
    id !in r.pending && !IsResolved(r, id) && !Full(r) && !Busy(r)
  }

  /**
   A new request waits for the owner exactly if its scope has no session grant; with one it is ready at once. A
   pending request may be repeated with its own scope. Each refusal, and exactly when.
   */
  lemma RegisterAnswersExactly(r: Registry, id: string, scope: Scope)
    ensures var (r', reply) := RegisterRequest(r, id, scope);
            var waits := id in r.pending;
            && (reply == Ok(AlreadyPending) <==> waits && r.pending[id] == scope)
            && (reply == Err(RequestIdConflict) <==> waits && r.pending[id] != scope)
            && (reply == Err(RequestAlreadyResolved) <==> !waits && IsResolved(r, id))
            && (reply == Err(TerminalRegistryFull) <==> !waits && !IsResolved(r, id) && Full(r))
            && (reply == Err(TooManyPending) <==> !waits && !IsResolved(r, id) && !Full(r) && Busy(r))
            && (reply == Ok(Pending) <==> Admissible(r, id) && scope !in r.grants)
            && (reply == Ok(AuthorizedByRoomSession) <==> Admissible(r, id) && scope in r.grants)
            && (reply == Ok(Pending) ==> r' == Registry(r.pending[id := scope], r.ready, r.terminal, r.grants))
            && (reply == Ok(AuthorizedByRoomSession) ==>
                  r' == Registry(r.pending, r.ready[id := Ready(scope, RoomSession)], r.terminal, r.grants))
            && (!Admissible(r, id) ==> r' == r)
  {}

  /** What a decision means for the request it is about. */
  predicate Means(decision: Decision, command: ActionTimeCommand, outcome: ResolveOutcome, lifetime: Lifetime) {
    match decision
    case AllowOnce => outcome == AuthorizationReady && lifetime == Once
    case AllowRoomSession =>
      if command.GitPush? || command.PackageInstall? || command.CargoFetch?
      then outcome == AuthorizationReady && lifetime == RoomSession
      else outcome == Denied(SessionLifetimeNotAllowed)
    case Deny => outcome == Denied(OwnerDenied)
    case Dismiss => outcome == Denied(Dismissed)
    case TimeOut => outcome == Denied(TimedOut)
  }

  /** A decision takes exactly a pending request, to ready or to terminal, and is refused otherwise. */
  lemma ResolveAnswersExactly(r: Registry, id: string, decision: Decision)
    ensures var (r', reply) := ResolveRequest(r, id, decision);
            && (reply == Err(TerminalRegistryFull) <==> Full(r))
            && (reply == Err(RequestAlreadyResolved) <==> !Full(r) && IsResolved(r, id))
            && (reply == Err(UnknownRequest) <==> !Full(r) && !IsResolved(r, id) && id !in r.pending)
            && (reply.Ok? <==> !Full(r) && !IsResolved(r, id) && id in r.pending)
            && (reply.Err? ==> r' == r)
            && (reply.Ok? ==>
                  var scope := r.pending[id];
                  exists lifetime :: Means(decision, scope.command, reply.value, lifetime) && r' ==
                    if reply.value.AuthorizationReady? then
                      Registry(r.pending - {id}, r.ready[id := Ready(scope, lifetime)], r.terminal,
                               if lifetime.RoomSession? then r.grants + {scope} else r.grants)
                    else
                      Registry(r.pending - {id}, r.ready, r.terminal[id := scope.sessionId], r.grants))
  {
    if id in r.pending {
      var lifetime := if decision.AllowOnce? then Once else RoomSession;
      var reply := ResolveRequest(r, id, decision).1;
      assert reply.Ok? ==> Means(decision, r.pending[id].command, reply.value, lifetime);
    }
  }

  /** A ready request is consumed or spoiled by the first scope it is asked for with; either way it is terminal. */
  lemma ConsumeAnswersExactly(r: Registry, id: string, expected: Scope)
    ensures var (r', reply) := ConsumeReady(r, id, expected);
            && (reply == Err(TerminalRegistryFull) <==> Full(r))
            && (reply == Err(RequestAlreadyResolved) <==> !Full(r) && id !in r.ready && id in r.terminal)
            && (reply == Err(UnknownRequest) <==> !Full(r) && id !in r.ready && id !in r.terminal)
            && (reply == Err(ScopeMismatch) <==> !Full(r) && id in r.ready && r.ready[id].scope != expected)
            && (reply.Ok? <==> !Full(r) && id in r.ready && r.ready[id].scope == expected)
            && (reply.Ok? ==> reply.value == Authorization(id, expected, r.ready[id].lifetime))
            && r' == if !Full(r) && id in r.ready
                     then Registry(r.pending, r.ready - {id}, r.terminal[id := r.ready[id].scope.sessionId], r.grants)
                     else r
  {}

  /** `after` is what is left of `before` once the entries of a session are gone. */
  predicate Keeps<V(==)>(before: map<string, V>, after: map<string, V>, session: string, sessionOf: V -> string) {
    && (forall id <- before :: id in after <==> sessionOf(before[id]) != session)
    && (forall id <- after :: id in before && after[id] == before[id])
  }

  /** The end of a session takes everything of that session, and nothing of any other. */
  lemma EndAnswersExactly(r: Registry, session: string)
    ensures var r' := EndSession(r, session);
            && Keeps(r.pending, r'.pending, session, (scope: Scope) => scope.sessionId)
            && Keeps(r.ready, r'.ready, session, (ready: Ready) => ready.scope.sessionId)
            && Keeps(r.terminal, r'.terminal, session, (s: string) => s)
            && forall scope :: scope in r'.grants <==> scope in r.grants && scope.sessionId != session
  {}

  /** The ids that a map holds for a session. */
  function IdsOf<V>(entries: map<string, V>, session: string, sessionOf: V -> string): set<string> {
    set id <- entries | sessionOf(entries[id]) == session
  }

  /** The number that the end of a session reports is that of everything it took. */
  lemma EndCountsExactly(r: Registry, session: string)
    ensures Size(r) - Size(EndSession(r, session)) ==
            |IdsOf(r.pending, session, (scope: Scope) => scope.sessionId)|
            + |IdsOf(r.ready, session, (ready: Ready) => ready.scope.sessionId)|
            + |IdsOf(r.terminal, session, (s: string) => s)|
            + |set scope <- r.grants | scope.sessionId == session|
  {
    hide EndSession;
    EndAnswersExactly(r, session);
    var r' := EndSession(r, session);
    KeptAndGone(r.pending, r'.pending, session, (scope: Scope) => scope.sessionId);
    KeptAndGone(r.ready, r'.ready, session, (ready: Ready) => ready.scope.sessionId);
    KeptAndGone(r.terminal, r'.terminal, session, (s: string) => s);
    var gone := set scope <- r.grants | scope.sessionId == session;
    assert r.grants == r'.grants + gone && r'.grants !! gone;
  }

  lemma KeptAndGone<V>(before: map<string, V>, after: map<string, V>, session: string, sessionOf: V -> string)
    requires Keeps(before, after, session, sessionOf)
    ensures |before| == |after| + |IdsOf(before, session, sessionOf)|
  {
    var gone := IdsOf(before, session, sessionOf);
    assert before.Keys == after.Keys + gone && after.Keys !! gone;
    assert |before| == |before.Keys| && |after| == |after.Keys|;
  }

  // ---- A session grant answers later requests ----

  lemma GrantAfter(r: Registry, c: Call, scope: Scope)
    requires scope in r.grants && c != EndCall(scope.sessionId)
    ensures scope in Apply(r, c).grants
  {
    hide ResolveRequest, ConsumeReady;
    match c
    case RegisterCall(_, _) =>
    case ResolveCall(id, decision) => ResolveMoves(r, id, decision);
    case ConsumeCall(id, expected) => ConsumeMoves(r, id, expected);
    case EndCall(_) =>
  }

  lemma {:induction false} GrantUntilEnd(states: seq<Registry>, calls: seq<Call>, a: nat, b: nat, scope: Scope)
    requires History(states, calls) && a <= b <= |calls| && scope in states[a].grants
    requires NoEnd(calls, a, b, scope.sessionId)
    ensures scope in states[b].grants
  {
    hide Apply;
    if a < b {
      GrantUntilEnd(states, calls, a, b - 1, scope);
      assert Moves(states[b - 1], calls[b - 1], states[b]);
      GrantAfter(states[b - 1], calls[b - 1], scope);
    }
  }

  /**
   Once the owner has allowed a scope for the room session, every new request with exactly that scope is answered at
   once until the session ends, as long as there is room, and its authorization can then be consumed.
   */
  lemma GrantIsHonoured(states: seq<Registry>, calls: seq<Call>, a: nat, b: nat, id: string, scope: Scope)
    requires History(states, calls) && a < b < |calls| && AllowedBy(states, calls, a, scope, RoomSession)
    requires NoEnd(calls, a, b, scope.sessionId)
    requires calls[b] == RegisterCall(id, scope) && Admissible(states[b], id)
    ensures RegisterRequest(states[b], id, scope).1 == Ok(AuthorizedByRoomSession)
    ensures states[b + 1].ready == states[b].ready[id := Ready(scope, RoomSession)]
    ensures ConsumeReady(states[b + 1], id, scope).1 == Ok(Authorization(id, scope, RoomSession))
  {
    hide Apply, RegisterRequest, ConsumeReady;
    assert Moves(states[a], calls[a], states[a + 1]);
    assert Moves(states[b], calls[b], states[b + 1]);
    AllowGrants(states[a], calls[a], scope);
    GrantUntilEnd(states, calls, a + 1, b, scope);
    RegisterAnswersExactly(states[b], id, scope);
    ApplyRegister(states[b], id, scope);
    ConsumeAnswersExactly(states[b + 1], id, scope);
  }

  lemma AllowGrants(r: Registry, c: Call, scope: Scope)
    requires c.ResolveCall? && c.id in r.pending && r.pending[c.id] == scope && Allows(r, c, c.id, RoomSession)
    ensures scope in Apply(r, c).grants
  {
    hide ResolveRequest;
    ResolveMoves(r, c.id, c.decision);
  }

  lemma ApplyRegister(r: Registry, id: string, scope: Scope)
    ensures Apply(r, RegisterCall(id, scope)) == RegisterRequest(r, id, scope).0
  {}
}
