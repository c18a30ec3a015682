/**
 One connection per relay account. `connect` holds the lock twice, before and after the transport call, so
 other calls run in between; each critical section is a step.
 */
module RelayConnections {
  import opened Outcomes

  datatype Phase = Offline | Connecting | Connected | Error

  datatype AccountState = AccountState(phase: Phase, lastErrorCode: Option<string>)

  const DEFAULT := AccountState(Offline, None)

  /**
   `states` is the shared map. `inFlight` and `handles` give the account of every connect call between its
   two critical sections, and of every connection handle not yet dropped.
   */
  datatype Service = Service(states: map<string, AccountState>, inFlight: map<nat, string>, handles: map<nat, string>)

  /** `entry(account).or_default()`. */
  function StateOf(states: map<string, AccountState>, account: string): AccountState {
    if account in states then states[account] else DEFAULT
  }

  function WithEntry(states: map<string, AccountState>, account: string): map<string, AccountState> {
    if account in states then states else states[account := DEFAULT]
  }

  /** The first critical section of `connect`, for call `t`. */
  function Begin(s: Service, t: nat, account: string): (Service, bool) {
    var state := StateOf(s.states, account);
    if state.phase.Connecting? || state.phase.Connected? then
      (s.(states := WithEntry(s.states, account)), false)
    else
      (s.(states := s.states[account := AccountState(Connecting, None)], inFlight := s.inFlight[t := account]), true)
  }

  /** The second critical section of `connect`: the transport connected, or failed with a code. */
  function End(s: Service, t: nat, failure: Option<string>): Service
    requires t in s.inFlight
  {
    var account := s.inFlight[t];
    match failure
    case None =>
      s.(states := s.states[account := AccountState(Connected, None)],
         inFlight := s.inFlight - {t}, handles := s.handles[t := account])
    case Some(code) =>
      s.(states := s.states[account := AccountState(Error, Some(code))], inFlight := s.inFlight - {t})
  }

  /** Dropping a handle. */
  function Drop(s: Service, t: nat): Service
    requires t in s.handles
  {
    s.(states := s.states[s.handles[t] := DEFAULT], handles := s.handles - {t})
  }

  /** `status`; `storeFailure` is the code of a failed look-up in the credential store. */
  function Status(s: Service, account: string, storeFailure: Option<string>): Service {
    match storeFailure
    case None => s.(states := WithEntry(s.states, account))
    case Some(code) => s.(states := s.states[account := AccountState(Error, Some(code))])
  }

  datatype Call =
    | BeginCall(t: nat, account: string)
    | EndCall(t: nat, failure: Option<string>)
    | DropCall(t: nat)
    | StatusCall(account: string, storeFailure: Option<string>)

  /** Call numbers are used once; a call ends and a handle is dropped at most once. */
  predicate Enabled(s: Service, c: Call) {
    match c
    case BeginCall(t, _) => t !in s.inFlight && t !in s.handles
    case EndCall(t, _) => t in s.inFlight
    case DropCall(t) => t in s.handles
    case StatusCall(_, _) => true
  }

  function Apply(s: Service, c: Call): Service
    requires Enabled(s, c)
  {
    match c
    case BeginCall(t, account) => Begin(s, t, account).0
    case EndCall(t, failure) => End(s, t, failure)
    case DropCall(t) => Drop(s, t)
    case StatusCall(account, failure) => Status(s, account, failure)
  }

  /** A connect in flight or a live handle. */
  predicate Active(s: Service, account: string) {
    (exists t <- s.inFlight :: s.inFlight[t] == account) || (exists t <- s.handles :: s.handles[t] == account)
  }

  predicate AtMostOne(s: Service) {
    && (forall t <- s.inFlight, u <- s.inFlight :: s.inFlight[t] == s.inFlight[u] ==> t == u)
    && (forall t <- s.handles, u <- s.handles :: s.handles[t] == s.handles[u] ==> t == u)
    && (forall t <- s.inFlight, u <- s.handles :: s.inFlight[t] != s.handles[u])
  }

  predicate PhasesTell(s: Service) {
    && (forall t <- s.inFlight :: StateOf(s.states, s.inFlight[t]).phase.Connecting?)
    && (forall t <- s.handles :: StateOf(s.states, s.handles[t]).phase.Connected?)
    && (forall a <- s.states :: s.states[a].phase.Connecting? ==> exists t <- s.inFlight :: s.inFlight[t] == a)
    && (forall a <- s.states :: s.states[a].phase.Connected? ==> exists t <- s.handles :: s.handles[t] == a)
  }

  /** At most one connect in flight or live handle per account, and the phases say exactly which. */
  predicate Exclusive(s: Service) {
    AtMostOne(s) && PhasesTell(s)
  }

  /** The credential store does not fail a status call for an account that is connecting or connected. */
  predicate StoreHolds(s: Service, c: Call) {
    c.StatusCall? && c.storeFailure.Some? ==> !Active(s, c.account)
  }

  lemma BeginKeepsExclusive(s: Service, t: nat, account: string)
    requires Exclusive(s) && Enabled(s, BeginCall(t, account))
    ensures Exclusive(Begin(s, t, account).0)
    ensures Begin(s, t, account).1 <==> !Active(s, account)
  {
    var s' := Begin(s, t, account).0;
    if Begin(s, t, account).1 {
      forall a <- s'.states | s'.states[a].phase.Connecting? ensures exists u <- s'.inFlight :: s'.inFlight[u] == a {
        if a == account {
          assert s'.inFlight[t] == a;
        } else {
          var u :| u in s.inFlight && s.inFlight[u] == a;
          assert s'.inFlight[u] == a;
        }
      }
    }
  }

  lemma EndKeepsExclusive(s: Service, t: nat, failure: Option<string>)
    requires Exclusive(s) && t in s.inFlight && t !in s.handles
    ensures Exclusive(End(s, t, failure))
  {
    hide PhasesTell;
    EndKeepsPhases(s, t, failure);
  }

  lemma EndKeepsPhases(s: Service, t: nat, failure: Option<string>)
    requires Exclusive(s) && t in s.inFlight && t !in s.handles
    ensures PhasesTell(End(s, t, failure))
  {
    var s' := End(s, t, failure);
    var account := s.inFlight[t];
    forall a <- s'.states | s'.states[a].phase.Connecting? ensures exists u <- s'.inFlight :: s'.inFlight[u] == a {
      var u :| u in s.inFlight && s.inFlight[u] == a;
      assert s'.inFlight[u] == a;
    }
    forall a <- s'.states | s'.states[a].phase.Connected? ensures exists u <- s'.handles :: s'.handles[u] == a {
      if a == account {
        assert s'.handles[t] == a;
      } else {
        var u :| u in s.handles && s.handles[u] == a;
        assert s'.handles[u] == a;
      }
    }
  }

  lemma DropKeepsExclusive(s: Service, t: nat)
    requires Exclusive(s) && t in s.handles
    ensures Exclusive(Drop(s, t))
  {
    var s' := Drop(s, t);
    forall a <- s'.states | s'.states[a].phase.Connected? ensures exists u <- s'.handles :: s'.handles[u] == a {
      var u :| u in s.handles && s.handles[u] == a;
      assert s'.handles[u] == a;
    }
  }

  /**
   A failed look-up keeps exclusion exactly when the account is idle. Otherwise the very next connect for
   that account is let through beside the one already there.
   */
  lemma StatusFailureExactly(s: Service, account: string, code: string, t: nat)
    requires Exclusive(s) && t !in s.inFlight && t !in s.handles
    ensures Exclusive(Status(s, account, Some(code))) <==> !Active(s, account)
    ensures var after := Begin(Status(s, account, Some(code)), t, account);
            && after.1
            && (AtMostOne(after.0) <==> !Active(s, account))
  {
    var s' := Status(s, account, Some(code));
    var after := Begin(s', t, account).0;
    assert after.inFlight[t] == account;
    if !Active(s, account) {
      FailedLookUpKeepsExclusive(s, account, code);
      BeginKeepsExclusive(s', t, account);
    } else if u :| u in s.inFlight && s.inFlight[u] == account {
      assert after.inFlight[u] == account && t != u;
      assert StateOf(s'.states, s'.inFlight[u]).phase.Error?;
    } else {
      var u :| u in s.handles && s.handles[u] == account;
      assert after.handles[u] == account;
      assert StateOf(s'.states, s'.handles[u]).phase.Error?;
    }
  }

  lemma FailedLookUpKeepsExclusive(s: Service, account: string, code: string)
    requires Exclusive(s) && !Active(s, account)
    ensures Exclusive(Status(s, account, Some(code)))
  {}

  lemma CallKeepsExclusive(s: Service, c: Call)
    requires Exclusive(s) && s.inFlight.Keys !! s.handles.Keys && Enabled(s, c) && StoreHolds(s, c)
    ensures Exclusive(Apply(s, c)) && Apply(s, c).inFlight.Keys !! Apply(s, c).handles.Keys
  {
    hide Exclusive, Active;
    match c
    case BeginCall(t, account) => BeginKeepsExclusive(s, t, account);
    case EndCall(t, failure) => EndKeepsExclusive(s, t, failure);
    case DropCall(t) => DropKeepsExclusive(s, t);
    case StatusCall(account, None) => LookUpKeepsExclusive(s, account);
    case StatusCall(account, Some(code)) => FailedLookUpKeepsExclusive(s, account, code);
  }

  lemma LookUpKeepsExclusive(s: Service, account: string)
    requires Exclusive(s)
    ensures Exclusive(Status(s, account, None))
  {}

  ghost predicate Run(states: seq<Service>, calls: seq<Call>) {
    && |states| == |calls| + 1
    && states[0] == Service(map[], map[], map[])
    && forall k :: 0 <= k < |calls| ==> Advances(states[k], calls[k], states[k + 1])
  }

  predicate Advances(s: Service, c: Call, s': Service) {
    Enabled(s, c) && StoreHolds(s, c) && s' == Apply(s, c)
  }

  /** Exclusion in every interleaving of connects, drops and status calls, if no look-up fails on a live account. */
  lemma {:induction false} RunIsExclusive(states: seq<Service>, calls: seq<Call>, k: nat)
    requires Run(states, calls) && k <= |calls|
    ensures Exclusive(states[k]) && states[k].inFlight.Keys !! states[k].handles.Keys
  {
    if k > 0 {
      hide Exclusive, Apply, Enabled, StoreHolds;
      RunIsExclusive(states, calls, k - 1);
      assert Advances(states[k - 1], calls[k - 1], states[k]);
      CallKeepsExclusive(states[k - 1], calls[k - 1]);
    }
  }

  // ---- What an account is told ----

  predicate Follows(s: Service, c: Call, s': Service) {
    Enabled(s, c) && s' == Apply(s, c)
  }

  /** Any interleaving at all, with any failures of the credential store. */
  ghost predicate AnyRun(states: seq<Service>, calls: seq<Call>) {
    && |states| == |calls| + 1
    && states[0] == Service(map[], map[], map[])
    && forall k :: 0 <= k < |calls| ==> Follows(states[k], calls[k], states[k + 1])
  }

  /** What one call says about an account, if it says anything. */
  function Word(s: Service, c: Call, account: string): Option<AccountState> {
    match c
    case BeginCall(t, a) =>
      if a == account && Begin(s, t, a).1 then Some(AccountState(Connecting, None)) else None
    case EndCall(t, failure) =>
      if t in s.inFlight && s.inFlight[t] == account then
        Some(if failure.None? then AccountState(Connected, None) else AccountState(Error, failure))
      else None
    case DropCall(t) => if t in s.handles && s.handles[t] == account then Some(AccountState(Offline, None)) else None
    case StatusCall(a, failure) => if a == account && failure.Some? then Some(AccountState(Error, failure)) else None
  }

  /** The last word about an account in a run; before any, it is offline. */
  function LastWord(states: seq<Service>, calls: seq<Call>, k: nat, account: string): AccountState
    requires k <= |calls| < |states|
  {
    if k == 0 then AccountState(Offline, None)
    else
      match Word(states[k - 1], calls[k - 1], account)
      case Some(state) => state
      case None => LastWord(states, calls, k - 1, account)
  }

  lemma CallTells(s: Service, c: Call, account: string)
    requires Enabled(s, c)
    ensures StateOf(Apply(s, c).states, account)
            == match Word(s, c, account) case Some(state) => state case None => StateOf(s.states, account)
  {}

  /**
   In every interleaving, what the map holds for an account is the last word about it: the phase and error code of its
   last connect, drop or failed look-up, whoever made it.
   */
  lemma {:induction false} StateIsLastWord(states: seq<Service>, calls: seq<Call>, k: nat, account: string)
    requires AnyRun(states, calls) && k <= |calls|
    ensures StateOf(states[k].states, account) == LastWord(states, calls, k, account)
  {
    if k > 0 {
      hide Apply, Enabled, Word;
      StateIsLastWord(states, calls, k - 1, account);
      assert Follows(states[k - 1], calls[k - 1], states[k - 1 + 1]);
      CallTells(states[k - 1], calls[k - 1], account);
    }
  }

  /** A connect that ends keeps its account, as a handle or not at all, and a dropped handle is gone. */
  lemma ConnectsAndHandles(s: Service, t: nat, failure: Option<string>)
    ensures t in s.inFlight ==>
              var s' := End(s, t, failure);
              && s'.inFlight == s.inFlight - {t}
              && s'.handles == if failure.None? then s.handles[t := s.inFlight[t]] else s.handles
    ensures t in s.handles ==> Drop(s, t).handles == s.handles - {t} && Drop(s, t).inFlight == s.inFlight
  {}

  datatype ConnectionStatus = ConnectionStatus(
    accountId: string,
    phase: Phase,
    credentialStored: bool,
    lastErrorCode: Option<string>)

  /** The service and the handles it gives out share one map of states. */
  class RelayClientService {
    var states: map<string, AccountState>
    ghost var inFlight: map<nat, string>
    ghost var handles: map<nat, string>

    ghost function State(): Service
      reads this
    {
      Service(states, inFlight, handles)
    }

    constructor ()
      ensures State() == Service(map[], map[], map[])
    {
      states, inFlight, handles := map[], map[], map[];
    }

    method BeginConnect(ghost t: nat, account: string) returns (started: bool)
      modifies this
      ensures (State(), started) == Begin(old(State()), t, account)
    {
      if account !in states {
        states := states[account := DEFAULT];
      }
      var phase := states[account].phase;
      if phase.Connecting? || phase.Connected? {
        return false;
      }
      states := states[account := AccountState(Connecting, None)];
      assert states == old(states)[account := AccountState(Connecting, None)];
      inFlight := inFlight[t := account];
      started := true;
    }

    method EndConnect(ghost t: nat, account: string, failure: Option<string>)
      requires t in inFlight && inFlight[t] == account
      modifies this
      ensures State() == End(old(State()), t, failure)
    {
      if failure.None? {
        states := states[account := AccountState(Connected, None)];
        handles := handles[t := account];
      } else {
        states := states[account := AccountState(Error, failure)];
      }
      inFlight := inFlight - {t};
    }

    method DropHandle(ghost t: nat, account: string)
      requires t in handles && handles[t] == account
      modifies this
      ensures State() == Drop(old(State()), t)
    {
      states := states[account := DEFAULT];
      handles := handles - {t};
    }

    /** `status`: the look-up says whether a credential is stored, or fails with a code. */
    method ReadStatus(account: string, lookUp: Result<bool, string>) returns (status: ConnectionStatus)
      modifies this
      ensures State() == Status(old(State()), account, if lookUp.Ok? then None else Some(lookUp.error))
      ensures status.accountId == account && status.credentialStored == (lookUp == Ok(true))
      ensures AccountState(status.phase, status.lastErrorCode) == states[account]
    {
      if account !in states {
        states := states[account := DEFAULT];
      }
      var credentialStored := false;
      if lookUp.Ok? {
        credentialStored := lookUp.value;
      } else {
        states := states[account := AccountState(Error, Some(lookUp.error))];
        assert states == old(states)[account := AccountState(Error, Some(lookUp.error))];
      }
      var state := states[account];
      status := ConnectionStatus(account, state.phase, credentialStored, state.lastErrorCode);
    }
  }
}
