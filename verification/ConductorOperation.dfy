/** One conductor operation: its stages, the calls that move it on, and what may never change once recorded. */
module ConductorOperation {
  import opened Outcomes
  import opened Collections
  import opened Strings
  import opened StableIdentifiers
  import opened ConductorPlan

  datatype OperationIds = OperationIds(operationId: string, finalMessageId: string)

  datatype DelegationIds = DelegationIds(messageId: string, dispatchId: string)

  datatype Stage = Prepared | Planning | Delegating | Synthesizing | Completed | Failed | Unknown {
    predicate Terminal() {
      Completed? || Failed? || Unknown?
    }
  }

  datatype WorkerOutcome =
    | Succeeded(replyMessageId: string, body: string)
    | WorkerFailed(reason: string)
    | WorkerUnknown

  datatype DelegationState = DelegationState(delegation: Delegation, ids: DelegationIds, outcome: Option<WorkerOutcome>)

  datatype OperationError = InvalidIdentity | InvalidStage | InvalidOutcome | ConflictingReplay | UnknownWorker

  datatype Operation = Operation(
    ids: OperationIds,
    sourceMessageId: string,
    conductorId: string,
    stage: Stage,
    plan: Option<Plan>,
    delegations: seq<DelegationState>,
    pendingFinalAnswer: Option<string>)

  datatype NextAction =
    | DoBeginPlanning
    | RequestPlan(operationId: string)
    | DispatchWorkers(pending: seq<DelegationState>)
    | RequestSynthesis(operationId: string, results: seq<DelegationState>)
    | SaveFinalAnswer(messageId: string, body: string)

  type Reply = Option<OperationError>

  // ---- Identities ----

  function DeriveIds(sourceMessageId: string, conductorId: string): Result<OperationIds, OperationError> {
    if !ValidIdentifier(sourceMessageId) || !ValidIdentifier(conductorId) then Err(InvalidIdentity)
    else
      var operationId := StableIdentifier("conductor-operation-v1", [sourceMessageId, conductorId]);
      Ok(OperationIds(operationId, StableIdentifier("conductor-final-v1", [operationId])))
  }

  function Ordinal(n: nat): string
    requires n < 10
  {
    ["0123456789"[n]]
  }

  function DeriveDelegationIds(ids: OperationIds, target: string, ordinal: nat): Result<DelegationIds, OperationError> {
    if !ValidIdentifier(target) || ordinal >= MAXIMUM_WORKERS then Err(InvalidIdentity)
    else
      var parts := [ids.operationId, target, Ordinal(ordinal)];
      Ok(DelegationIds(StableIdentifier("conductor-delegation-v1", parts),
                       StableIdentifier("conductor-dispatch-v1", parts)))
  }

  lemma OperationPrefixIsValid()
    ensures ValidIdentifier("conductor-operation-v1")
  {
    hide Encode;
    EncodeAscii("conductor-operation-v1");
  }

  lemma FinalPrefixIsValid()
    ensures ValidIdentifier("conductor-final-v1")
  {
    hide Encode;
    EncodeAscii("conductor-final-v1");
  }

  lemma DelegationPrefixIsValid()
    ensures ValidIdentifier("conductor-delegation-v1")
  {
    hide Encode;
    EncodeAscii("conductor-delegation-v1");
  }

  lemma DispatchPrefixIsValid()
    ensures ValidIdentifier("conductor-dispatch-v1")
  {
    hide Encode;
    EncodeAscii("conductor-dispatch-v1");
  }

  /**
   All identifiers of an operation and its delegations are valid identifiers of the room, so nothing but an
   invalid input makes their derivation fail.
   */
  lemma DerivedIdsAreValid(source: string, conductor: string, target: string, ordinal: nat)
    ensures var derived := DeriveIds(source, conductor);
            && (derived.Ok? <==> ValidIdentifier(source) && ValidIdentifier(conductor))
            && (derived.Ok? ==>
                  && ValidIdentifier(derived.value.operationId) && ValidIdentifier(derived.value.finalMessageId)
                  && DelegationIdsAreValid(derived.value, target, ordinal))
  {
    hide StableIdentifier, ValidIdentifier;
    if DeriveIds(source, conductor).Ok? {
      OperationPrefixIsValid();
      FinalPrefixIsValid();
      var ids := DeriveIds(source, conductor).value;
      DerivedIsValid("conductor-operation-v1", [source, conductor]);
      DerivedIsValid("conductor-final-v1", [ids.operationId]);
      DerivedDelegationIds(ids, target, ordinal);
    }
  }

  predicate DelegationIdsAreValid(ids: OperationIds, target: string, ordinal: nat) {
    var derived := DeriveDelegationIds(ids, target, ordinal);
    && (derived.Ok? <==> ValidIdentifier(target) && ordinal < MAXIMUM_WORKERS)
    && (derived.Ok? ==> ValidIdentifier(derived.value.messageId) && ValidIdentifier(derived.value.dispatchId))
  }

  lemma DerivedDelegationIds(ids: OperationIds, target: string, ordinal: nat)
    ensures DelegationIdsAreValid(ids, target, ordinal)
  {
    hide StableIdentifier, ValidIdentifier;
    DelegationPrefixIsValid();
    DispatchPrefixIsValid();
    if ordinal < MAXIMUM_WORKERS {
      DerivedIsValid("conductor-delegation-v1", [ids.operationId, target, Ordinal(ordinal)]);
      DerivedIsValid("conductor-dispatch-v1", [ids.operationId, target, Ordinal(ordinal)]);
    }
  }

  // ---- Calls ----

  predicate ValidWorkerOutcome(outcome: WorkerOutcome) {
    match outcome
    case Succeeded(id, body) => ValidIdentifier(id) && ValidBoundedText(body, MAXIMUM_RESULT_TEXT_BYTES)
    case WorkerFailed(reason) => ValidBoundedText(reason, MAXIMUM_DELEGATION_TASK_BYTES)
    case WorkerUnknown => true
  }

  /** Nothing has been recorded yet. Every run starts from such an operation. */
  predicate Untouched(op: Operation) {
    op.stage.Prepared? && op.plan.None? && op.delegations == [] && op.pendingFinalAnswer.None?
  }

  function NewOperation(sourceMessageId: string, conductorId: string): (r: Result<Operation, OperationError>)
    ensures r.Ok? <==> ValidIdentifier(sourceMessageId) && ValidIdentifier(conductorId)
    ensures r.Ok? ==> Untouched(r.value) && ValidIdentifier(r.value.ids.operationId)
                      && ValidIdentifier(r.value.ids.finalMessageId)
  {
    DerivedIdsAreValid(sourceMessageId, conductorId, "", 0);
    match DeriveIds(sourceMessageId, conductorId)
    case Err(e) => Err(e)
    case Ok(ids) => Ok(Operation(ids, sourceMessageId, conductorId, Prepared, None, [], None))
  }

  function PlanningBegun(op: Operation): (Operation, Reply) {
    if op.stage.Prepared? then (op.(stage := Planning), None)
    else if op.stage.Planning? then (op, None)
    else (op, Some(InvalidStage))
  }

  /** The states of the planned delegations `k` and later, after those already built for the targets before them. */
  function BuildStates(ids: OperationIds, planned: seq<Delegation>, targets: set<string>, states: seq<DelegationState>)
    : Result<seq<DelegationState>, OperationError>
    requires |states| <= |planned|
    decreases |planned| - |states|
  {
    var k := |states|;
    if k == |planned| then Ok(states)
    else
      var d := planned[k];
      if !ValidIdentifier(d.targetParticipantId) || !ValidBoundedText(d.task, MAXIMUM_DELEGATION_TASK_BYTES)
         || d.targetParticipantId in targets
      then Err(InvalidOutcome)
      else
        match DeriveDelegationIds(ids, d.targetParticipantId, k)
        case Err(e) => Err(e)
        case Ok(delegationIds) =>
          BuildStates(ids, planned, targets + {d.targetParticipantId},
                      states + [DelegationState(d, delegationIds, None)])
  }

  function PlanAccepted(op: Operation, plan: Plan): (Operation, Reply) {
    if op.plan.Some? then (op, if op.plan.value == plan then None else Some(ConflictingReplay))
    else if !op.stage.Planning? then (op, Some(InvalidStage))
    else
      match plan.mode
      case Answer =>
        if plan.directAnswer.None? || !ValidBoundedText(plan.directAnswer.value, MAXIMUM_DIRECT_ANSWER_BYTES)
           || plan.delegations != []
        then (op, Some(InvalidOutcome))
        else (op.(pendingFinalAnswer := plan.directAnswer, stage := Synthesizing, plan := Some(plan)), None)
      case Delegate =>
        if plan.directAnswer.Some? || !(1 <= |plan.delegations| <= MAXIMUM_WORKERS) then (op, Some(InvalidOutcome))
        else
          match BuildStates(op.ids, plan.delegations, {}, [])
          case Err(e) => (op, Some(e))
          case Ok(states) => (op.(delegations := states, stage := Delegating, plan := Some(plan)), None)
  }

  /** The first delegation to a target. */
  function Worker(delegations: seq<DelegationState>, target: string): (r: Option<nat>)
    ensures r.Some? ==> r.value < |delegations| && delegations[r.value].delegation.targetParticipantId == target
    ensures r.None? ==> forall d <- delegations :: d.delegation.targetParticipantId != target
  {
    Position(delegations, (d: DelegationState) => d.delegation.targetParticipantId == target)
  }

  predicate AllReported(delegations: seq<DelegationState>) {
    forall d <- delegations :: d.outcome.Some?
  }

  function OutcomeRecorded(op: Operation, target: string, outcome: WorkerOutcome): (Operation, Reply) {
    match Worker(op.delegations, target)
    case None => (op, Some(UnknownWorker))
    case Some(i) =>
      var d := op.delegations[i];
      if d.outcome.Some? then (op, if d.outcome.value == outcome then None else Some(ConflictingReplay))
      else if !op.stage.Delegating? || !ValidWorkerOutcome(outcome) then (op, Some(InvalidOutcome))
      else
        var delegations := op.delegations[i := d.(outcome := Some(outcome))];
        (op.(delegations := delegations, stage := if AllReported(delegations) then Synthesizing else op.stage), None)
  }

  function SynthesisRecorded(op: Operation, answer: string): (Operation, Reply) {
    if op.pendingFinalAnswer.Some? then
      (op, if op.pendingFinalAnswer.value == answer then None else Some(ConflictingReplay))
    else if !op.stage.Synthesizing? || op.plan.None? || !op.plan.value.mode.Delegate?
            || !ValidBoundedText(answer, MAXIMUM_RESULT_TEXT_BYTES)
    then (op, Some(InvalidOutcome))
    else (op.(pendingFinalAnswer := Some(answer)), None)
  }

  function FinalSaved(op: Operation): (Operation, Reply) {
    if op.stage.Synthesizing? && op.pendingFinalAnswer.Some? then (op.(stage := Completed), None)
    else if op.stage.Completed? then (op, None)
    else (op, Some(InvalidStage))
  }

  /** `mark_failed` and `mark_external_unknown`. */
  function EndedAs(op: Operation, stage: Stage): (Operation, Reply) {
    if op.stage.Terminal() then (op, if op.stage == stage then None else Some(InvalidStage))
    else (op.(stage := stage), None)
  }

  function FindNextAction(op: Operation): Option<NextAction> {
    match op.stage
    case Prepared => Some(DoBeginPlanning)
    case Planning => Some(RequestPlan(op.ids.operationId))
    case Delegating =>
      var pending := Unreported(op.delegations);
      if pending == [] then None else Some(DispatchWorkers(pending))
    case Synthesizing =>
      if op.pendingFinalAnswer.Some? then Some(SaveFinalAnswer(op.ids.finalMessageId, op.pendingFinalAnswer.value))
      else Some(RequestSynthesis(op.ids.operationId, op.delegations))
    case _ => None
  }

  function Unreported(delegations: seq<DelegationState>): (r: seq<DelegationState>)
    ensures r == [] <==> AllReported(delegations)
    ensures forall d :: d in r <==> d in delegations && d.outcome.None?
  {
    if delegations == [] then []
    else if delegations[0].outcome.None? then [delegations[0]] + Unreported(delegations[1..])
    else Unreported(delegations[1..])
  }

  /** The operation as the program holds it, changed call by call. */
  class LiveOperation {
    const ids: OperationIds
    const sourceMessageId: string
    const conductorId: string
    var stage: Stage
    var plan: Option<Plan>
    var delegations: seq<DelegationState>
    var pendingFinalAnswer: Option<string>

    ghost function State(): Operation
      reads this
    {
      Operation(ids, sourceMessageId, conductorId, stage, plan, delegations, pendingFinalAnswer)
    }

    constructor (ids: OperationIds, sourceMessageId: string, conductorId: string)
      requires DeriveIds(sourceMessageId, conductorId) == Ok(ids)
      ensures NewOperation(sourceMessageId, conductorId) == Ok(State())
    {
      this.ids, this.sourceMessageId, this.conductorId := ids, sourceMessageId, conductorId;
      stage, plan, delegations, pendingFinalAnswer := Prepared, None, [], None;
    }

    method BeginPlanning() returns (reply: Reply)
      modifies this
      ensures (State(), reply) == PlanningBegun(old(State()))
    {
      if stage.Prepared? {
        stage := Planning;
        return None;
      }
      reply := if stage.Planning? then None else Some(InvalidStage);
    }

    method AcceptPlan(plan: Plan) returns (reply: Reply)
      modifies this
      ensures (State(), reply) == PlanAccepted(old(State()), plan)
    {
      if this.plan.Some? {
        return if this.plan.value == plan then None else Some(ConflictingReplay);
      }
      if !stage.Planning? {
        return Some(InvalidStage);
      }
      match plan.mode {
        case Answer =>
          if plan.directAnswer.None? || !ValidBoundedText(plan.directAnswer.value, MAXIMUM_DIRECT_ANSWER_BYTES)
             || plan.delegations != [] {
            return Some(InvalidOutcome);
          }
          pendingFinalAnswer := plan.directAnswer;
          stage := Synthesizing;
        case Delegate =>
          if plan.directAnswer.Some? || !(1 <= |plan.delegations| <= MAXIMUM_WORKERS) {
            return Some(InvalidOutcome);
          }
          var states := CollectStates(plan.delegations);
          if states.Err? {
            return Some(states.error);
          }
          delegations := states.value;
          stage := Delegating;
      }
      this.plan := Some(plan);
      reply := None;
    }

    /** The loop of `accept_plan`. */
    method CollectStates(planned: seq<Delegation>) returns (r: Result<seq<DelegationState>, OperationError>)
      ensures r == BuildStates(ids, planned, {}, [])
    {
      var targets: set<string> := {};
      var states: seq<DelegationState> := [];
      for k := 0 to |planned|
        invariant |states| == k && BuildStates(ids, planned, {}, []) == BuildStates(ids, planned, targets, states)
      {
        hide ValidIdentifier, ValidBoundedText, DeriveDelegationIds;
        var d := planned[k];
        if !ValidIdentifier(d.targetParticipantId) || !ValidBoundedText(d.task, MAXIMUM_DELEGATION_TASK_BYTES)
           || d.targetParticipantId in targets {
          return Err(InvalidOutcome);
        }
        var delegationIds := DeriveDelegationIds(ids, d.targetParticipantId, k);
        if delegationIds.Err? {
          return Err(delegationIds.error);
        }
        targets := targets + {d.targetParticipantId};
        states := states + [DelegationState(d, delegationIds.value, None)];
      }
      r := Ok(states);
    }

    method RecordWorkerOutcome(target: string, outcome: WorkerOutcome) returns (reply: Reply)
      modifies this
      ensures (State(), reply) == OutcomeRecorded(old(State()), target, outcome)
    {
      hide ValidWorkerOutcome;
      var worker := Worker(delegations, target);
      if worker.None? {
        return Some(UnknownWorker);
      }
      var state := delegations[worker.value];
      if state.outcome.Some? {
        return if state.outcome.value == outcome then None else Some(ConflictingReplay);
      }
      if !stage.Delegating? || !ValidWorkerOutcome(outcome) {
        return Some(InvalidOutcome);
      }
      delegations := delegations[worker.value := state.(outcome := Some(outcome))];
      if AllReported(delegations) {
        stage := Synthesizing;
      }
      reply := None;
    }

    method RecordSynthesis(answer: string) returns (reply: Reply)
      modifies this
      ensures (State(), reply) == SynthesisRecorded(old(State()), answer)
    {
      if pendingFinalAnswer.Some? {
        return if pendingFinalAnswer.value == answer then None else Some(ConflictingReplay);
      }
      if !stage.Synthesizing? || plan.None? || !plan.value.mode.Delegate?
         || !ValidBoundedText(answer, MAXIMUM_RESULT_TEXT_BYTES) {
        return Some(InvalidOutcome);
      }
      pendingFinalAnswer := Some(answer);
      reply := None;
    }

    method MarkFinalSaved() returns (reply: Reply)
      modifies this
      ensures (State(), reply) == FinalSaved(old(State()))
    {
      if stage.Synthesizing? && pendingFinalAnswer.Some? {
        stage := Completed;
        return None;
      }
      reply := if stage.Completed? then None else Some(InvalidStage);
    }

    method MarkFailed() returns (reply: Reply)
      modifies this
      ensures (State(), reply) == EndedAs(old(State()), Failed)
    {
      if stage.Terminal() {
        return if stage.Failed? then None else Some(InvalidStage);
      }
      stage := Failed;
      reply := None;
    }

    method MarkExternalUnknown() returns (reply: Reply)
      modifies this
      ensures (State(), reply) == EndedAs(old(State()), Unknown)
    {
      if stage.Terminal() {
        return if stage.Unknown? then None else Some(InvalidStage);
      }
      stage := Unknown;
      reply := None;
    }
  }
}
