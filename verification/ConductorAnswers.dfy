/**
 What every call of a conductor operation answers and records, for all operations and arguments: exactly when each
 answer is given, and every field afterwards.
 */
module ConductorAnswers {
  import opened Outcomes
  import opened Strings
  import opened StableIdentifiers
  import opened ConductorPlan
  import opened ConductorOperation
  import opened ConductorRuns

  /** The same identity and nothing changed but these four fields. */
  predicate Becomes(
    op: Operation, op': Operation, stage: Stage, plan: Option<Plan>, delegations: seq<DelegationState>,
    answer: Option<string>)
  {
    op' == Operation(op.ids, op.sourceMessageId, op.conductorId, stage, plan, delegations, answer)
  }

  lemma BeginAnswersExactly(op: Operation)
    ensures var (op', reply) := PlanningBegun(op);
            && (reply == Some(InvalidStage) <==> !op.stage.Prepared? && !op.stage.Planning?)
            && (reply == None <==> op.stage.Prepared? || op.stage.Planning?)
            && (op.stage.Prepared? ==>
                  Becomes(op, op', Planning, op.plan, op.delegations, op.pendingFinalAnswer))
            && (!op.stage.Prepared? ==> op' == op)
  {}

  // ---- Plans ----

  predicate GoodText(text: string, maximum: nat) {
    Trim(text) != "" && ByteLength(text) <= maximum
  }

  /** A plan an operation can carry out: one answer, or one to three tasks for different targets. */
  predicate CanCarryOut(plan: Plan) {
    if plan.mode.Answer? then
      plan.delegations == [] && plan.directAnswer.Some? && GoodText(plan.directAnswer.value, 100_000)
    else
      plan.directAnswer.None? && 1 <= |plan.delegations| <= 3 && CanDispatch(plan.delegations)
  }

  predicate CanDispatch(planned: seq<Delegation>) {
    && (forall d <- planned :: ValidIdentifier(d.targetParticipantId) && GoodText(d.task, 4_000))
    && forall i, j :: 0 <= i < j < |planned| ==> planned[i].targetParticipantId != planned[j].targetParticipantId
  }

  lemma {:induction false} BuildsOnlyBuildable(
    ids: OperationIds, planned: seq<Delegation>, targets: set<string>, states: seq<DelegationState>)
    requires |states| <= |planned| <= MAXIMUM_WORKERS
    ensures BuildStates(ids, planned, targets, states).Err? ==>
              BuildStates(ids, planned, targets, states) == Err(InvalidOutcome)
    ensures BuildStates(ids, planned, targets, states).Ok? ==> RestIsBuildable(planned, |states|, targets)
    decreases |planned| - |states|
  {
    hide ValidIdentifier, ValidBoundedText, DeriveDelegationIds, RestIsBuildable;
    var k := |states|;
    if k == |planned| {
      NoRest(planned, targets);
    } else {
      var d := planned[k];
      if ValidIdentifier(d.targetParticipantId) && ValidBoundedText(d.task, MAXIMUM_DELEGATION_TASK_BYTES)
         && d.targetParticipantId !in targets
      {
        DerivesForWorkers(ids, d.targetParticipantId, k);
        var next := states + [DelegationState(d, DeriveDelegationIds(ids, d.targetParticipantId, k).value, None)];
        BuildsOnlyBuildable(ids, planned, targets + {d.targetParticipantId}, next);
        if BuildStates(ids, planned, targets + {d.targetParticipantId}, next).Ok? {
          RestOneByOne(planned, k, targets);
        }
      }
    }
  }

  lemma DerivesForWorkers(ids: OperationIds, target: string, k: nat)
    requires ValidIdentifier(target) && k < MAXIMUM_WORKERS
    ensures DeriveDelegationIds(ids, target, k).Ok?
  {
    hide ValidIdentifier;
  }

  predicate RestIsBuildable(planned: seq<Delegation>, k: nat, targets: set<string>) {
    && (forall i :: k <= i < |planned| ==>
          && ValidIdentifier(planned[i].targetParticipantId)
          && ValidBoundedText(planned[i].task, MAXIMUM_DELEGATION_TASK_BYTES)
          && planned[i].targetParticipantId !in targets)
    && forall i, j :: k <= i < j < |planned| ==> planned[i].targetParticipantId != planned[j].targetParticipantId
  }

  lemma NoRest(planned: seq<Delegation>, targets: set<string>)
    ensures RestIsBuildable(planned, |planned|, targets)
  {}

  lemma RestOneByOne(planned: seq<Delegation>, k: nat, targets: set<string>)
    requires k < |planned|
    requires RestIsBuildable(planned, k + 1, targets + {planned[k].targetParticipantId})
    requires ValidIdentifier(planned[k].targetParticipantId) && planned[k].targetParticipantId !in targets
    requires ValidBoundedText(planned[k].task, MAXIMUM_DELEGATION_TASK_BYTES)
    ensures RestIsBuildable(planned, k, targets)
  {
    hide ValidIdentifier, ValidBoundedText;
  }

  /** The loop of `accept_plan` succeeds exactly on plans that can be dispatched, with one fresh state for each. */
  lemma BuildsExactly(ids: OperationIds, planned: seq<Delegation>)
    requires |planned| <= MAXIMUM_WORKERS
    ensures BuildStates(ids, planned, {}, []).Ok? <==> CanDispatch(planned)
    ensures BuildStates(ids, planned, {}, []).Err? ==> BuildStates(ids, planned, {}, []) == Err(InvalidOutcome)
    ensures BuildStates(ids, planned, {}, []).Ok? ==> FreshStates(ids, planned, BuildStates(ids, planned, {}, []).value)
  {
    hide BuildStates, ValidIdentifier, DeriveDelegationIds;
    BuildsOnlyBuildable(ids, planned, {}, []);
    if CanDispatch(planned) { BuildableBuilds(ids, planned, {}, []); }
    if BuildStates(ids, planned, {}, []).Ok? { BuiltStates(ids, planned, {}, []); }
  }

  predicate FreshStates(ids: OperationIds, planned: seq<Delegation>, states: seq<DelegationState>) {
    Planned(ids, planned, states) && forall state <- states :: state.outcome.None?
  }

  /**
   A plan is accepted exactly once, while planning, if it can be carried out; the same plan may come again. An
   answer goes straight to synthesis, and a delegation waits for one outcome for each of its tasks.
   */
  lemma AcceptAnswersExactly(op: Operation, plan: Plan)
    ensures var (op', reply) := PlanAccepted(op, plan);
            var accepted := op.plan.None? && op.stage.Planning? && CanCarryOut(plan);
            && (reply == Some(ConflictingReplay) <==> op.plan.Some? && op.plan != Some(plan))
            && (reply == Some(InvalidStage) <==> op.plan.None? && !op.stage.Planning?)
            && (reply == Some(InvalidOutcome) <==> op.plan.None? && op.stage.Planning? && !CanCarryOut(plan))
            && (reply == None <==> accepted || op.plan == Some(plan))
            && (!accepted ==> op' == op)
            && (accepted && plan.mode.Answer? ==>
                  Becomes(op, op', Synthesizing, Some(plan), op.delegations, plan.directAnswer))
            && (accepted && plan.mode.Delegate? ==>
                  && Becomes(op, op', Delegating, Some(plan), op'.delegations, op.pendingFinalAnswer)
                  && FreshStates(op.ids, plan.delegations, op'.delegations))
  {
    hide BuildStates, CanDispatch, FreshStates;
    if plan.mode.Delegate? && 1 <= |plan.delegations| <= MAXIMUM_WORKERS {
      BuildsExactly(op.ids, plan.delegations);
    }
  }

  // ---- Outcomes ----

  /** The first worker with this target is `i`. */
  predicate WorkerAt(op: Operation, target: string, i: nat) {
    && i < |op.delegations| && Target(op.delegations[i]) == target
    && forall j :: 0 <= j < i ==> Target(op.delegations[j]) != target
  }

  predicate GoodOutcome(outcome: WorkerOutcome) {
    && (outcome.Succeeded? ==> ValidIdentifier(outcome.replyMessageId) && GoodText(outcome.body, 100_000))
    && (outcome.WorkerFailed? ==> GoodText(outcome.reason, 4_000))
  }

  lemma WorkerExactly(op: Operation, target: string)
    ensures forall i: nat :: Worker(op.delegations, target) == Some(i) <==> WorkerAt(op, target, i)
    ensures Worker(op.delegations, target).None? <==> forall d <- op.delegations :: Target(d) != target
  {
    forall i: nat | WorkerAt(op, target, i) ensures Worker(op.delegations, target) == Some(i) {
      assert op.delegations[i] in op.delegations;
    }
  }

  /** Only worker `i` reports, and everybody else is as before. */
  predicate OnlyReports(before: seq<DelegationState>, after: seq<DelegationState>, i: nat, outcome: WorkerOutcome) {
    && i < |before| == |after|
    && after[i] == DelegationState(before[i].delegation, before[i].ids, Some(outcome))
    && forall j :: 0 <= j < |before| && j != i ==> after[j] == before[j]
  }

  /**
   An outcome is recorded exactly for a worker that has none, while delegating, if it is well formed; the same
   outcome may come again at any time. The last outcome starts synthesis.
   */
  lemma OutcomeAnswersExactly(op: Operation, target: string, outcome: WorkerOutcome)
    ensures var (op', reply) := OutcomeRecorded(op, target, outcome);
            && (reply == Some(UnknownWorker) <==> forall d <- op.delegations :: Target(d) != target)
            && (reply.Some? ==> op' == op)
            && forall i: nat :: WorkerAt(op, target, i) ==>
                 var known := op.delegations[i].outcome;
                 var open := op.stage.Delegating? && GoodOutcome(outcome);
                 && (reply == Some(ConflictingReplay) <==> known.Some? && known != Some(outcome))
                 && (reply == Some(InvalidOutcome) <==> known.None? && !open)
                 && (reply == None <==> known == Some(outcome) || (known.None? && open))
                 && (known.Some? ==> op' == op)
                 && (known.None? && open ==>
                       && OnlyReports(op.delegations, op'.delegations, i, outcome)
                       && var all := forall d <- op'.delegations :: d.outcome.Some?;
                          Becomes(op, op', if all then Synthesizing else Delegating, op.plan, op'.delegations,
                                  op.pendingFinalAnswer))
  {
    hide Worker, ValidIdentifier, Trim, ByteLength;
    WorkerExactly(op, target);
  }

  // ---- Answers and ends ----

  /** A well-formed answer is recorded exactly once, as it is given, while a delegated operation synthesizes. */
  lemma SynthesisAnswersExactly(op: Operation, answer: string)
    ensures var (op', reply) := SynthesisRecorded(op, answer);
            var open := && op.stage.Synthesizing? && op.plan.Some? && op.plan.value.mode.Delegate?
                        && GoodText(answer, 100_000);
            && (reply == Some(ConflictingReplay) <==>
                  op.pendingFinalAnswer.Some? && op.pendingFinalAnswer != Some(answer))
            && (reply == Some(InvalidOutcome) <==> op.pendingFinalAnswer.None? && !open)
            && (reply == None <==> op.pendingFinalAnswer == Some(answer) || (op.pendingFinalAnswer.None? && open))
            && (if op.pendingFinalAnswer.None? && open
                then Becomes(op, op', Synthesizing, op.plan, op.delegations, Some(answer))
                else op' == op)
  {
    hide Trim, ByteLength;
  }

  lemma SavedAnswersExactly(op: Operation)
    ensures var (op', reply) := FinalSaved(op);
            var ready := op.stage.Synthesizing? && op.pendingFinalAnswer.Some?;
            && (reply == None <==> ready || op.stage.Completed?)
            && (reply == Some(InvalidStage) <==> !ready && !op.stage.Completed?)
            && (if ready then Becomes(op, op', Completed, op.plan, op.delegations, op.pendingFinalAnswer)
                else op' == op)
  {}

  /** Both ways to give an operation up end it from any open stage, and only repeat themselves afterwards. */
  lemma GivingUpAnswersExactly(op: Operation)
    ensures var open := !op.stage.Completed? && !op.stage.Failed? && !op.stage.Unknown?;
            var failed, unknown := Apply(op, MarkFailed), Apply(op, MarkExternalUnknown);
            && (if open then Becomes(op, failed.0, Failed, op.plan, op.delegations, op.pendingFinalAnswer)
                else failed.0 == op)
            && (if open then Becomes(op, unknown.0, Unknown, op.plan, op.delegations, op.pendingFinalAnswer)
                else unknown.0 == op)
            && failed.1 == (if open || op.stage.Failed? then None else Some(InvalidStage))
            && unknown.1 == (if open || op.stage.Unknown? then None else Some(InvalidStage))
  {}

  // ---- Identities ----

  /** What each id is derived from, and under which prefix. */
  lemma IdsAreOfTheirParts(source: string, conductor: string, target: string, n: nat)
    ensures DeriveIds(source, conductor).Ok? ==>
              var ids := DeriveIds(source, conductor).value;
              && ids.operationId == StableIdentifier("conductor-operation-v1", [source, conductor])
              && ids.finalMessageId == StableIdentifier("conductor-final-v1", [ids.operationId])
              && (DeriveDelegationIds(ids, target, n).Ok? ==>
                    var own, parts := DeriveDelegationIds(ids, target, n).value, [ids.operationId, target, ["012"[n]]];
                    && own.messageId == StableIdentifier("conductor-delegation-v1", parts)
                    && own.dispatchId == StableIdentifier("conductor-dispatch-v1", parts))
  {
    hide StableIdentifier, ValidIdentifier;
    if n < 3 { assert "012"[n] == "0123456789"[n]; }
  }

  /** Two texts of equal length that differ in exactly one byte. */
  predicate DiffersInOneByte(a: string, b: string, i: nat) {
    && i < ByteLength(a) == ByteLength(b) && Encode(a)[i] != Encode(b)[i]
    && forall k :: 0 <= k < ByteLength(a) && k != i ==> Encode(a)[k] == Encode(b)[k]
  }

  /**
   Operations for messages, or conductors, whose ids differ in one byte have different ids; delegations of one
   operation to different targets, in the same sense, or with different numbers, have different ids; and a message
   never has the id of its own dispatch, nor an operation that of its answer.
   */
  lemma OperationIdsDiffer(source: string, source': string, conductor: string, conductor': string, i: nat)
    requires DeriveIds(source, conductor).Ok?
    ensures DiffersInOneByte(source, source', i) && DeriveIds(source', conductor).Ok? ==>
              DeriveIds(source, conductor).value.operationId != DeriveIds(source', conductor).value.operationId
    ensures DiffersInOneByte(conductor, conductor', i) && DeriveIds(source, conductor').Ok? ==>
              DeriveIds(source, conductor).value.operationId != DeriveIds(source, conductor').value.operationId
    ensures DeriveIds(source, conductor).value.operationId != DeriveIds(source, conductor).value.finalMessageId
  {
    hide StableIdentifier, ValidIdentifier, Encode;
    var prefix := "conductor-operation-v1";
    if DiffersInOneByte(source, source', i) {
      OneByteChangesIdentifier(prefix, [], source, source', [conductor], i);
      assert [] + [source] + [conductor] == [source, conductor] && [] + [source'] + [conductor] == [source', conductor];
    }
    if DiffersInOneByte(conductor, conductor', i) {
      OneByteChangesIdentifier(prefix, [source], conductor, conductor', [], i);
      assert [source] + [conductor] + [] == [source, conductor] && [source] + [conductor'] + [] == [source, conductor'];
    }
    var id := DeriveIds(source, conductor).value.operationId;
    PrefixTells(prefix, [source, conductor], "conductor-final-v1", [id]);
  }

  lemma PrefixTells(prefix: string, parts: seq<string>, prefix': string, parts': seq<string>)
    requires |prefix| != |prefix'|
    ensures StableIdentifier(prefix, parts) != StableIdentifier(prefix', parts')
  {
    hide Stream, Absorb, HexDigits;
    assert |StableIdentifier(prefix, parts)| == |prefix| + 33;
    assert |StableIdentifier(prefix', parts')| == |prefix'| + 33;
  }

  lemma DelegationIdsDiffer(ids: OperationIds, target: string, target': string, n: nat, n': nat, i: nat)
    requires DeriveDelegationIds(ids, target, n).Ok?
    ensures var own := DeriveDelegationIds(ids, target, n).value; own.messageId != own.dispatchId
    ensures DiffersInOneByte(target, target', i) && DeriveDelegationIds(ids, target', n).Ok? ==>
              BothDiffer(DeriveDelegationIds(ids, target, n).value, DeriveDelegationIds(ids, target', n).value)
    ensures n != n' && DeriveDelegationIds(ids, target, n').Ok? ==>
              BothDiffer(DeriveDelegationIds(ids, target, n).value, DeriveDelegationIds(ids, target, n').value)
  {
    hide StableIdentifier, ValidIdentifier, Encode, Ordinal;
    var operation, m, d := ids.operationId, "conductor-delegation-v1", "conductor-dispatch-v1";
    PrefixTells(m, [operation, target, Ordinal(n)], d, [operation, target, Ordinal(n)]);
    if DiffersInOneByte(target, target', i) {
      OneByteChangesIdentifier(m, [operation], target, target', [Ordinal(n)], i);
      OneByteChangesIdentifier(d, [operation], target, target', [Ordinal(n)], i);
      assert [operation] + [target] + [Ordinal(n)] == [operation, target, Ordinal(n)];
      assert [operation] + [target'] + [Ordinal(n)] == [operation, target', Ordinal(n)];
    }
    if n != n' && n' < MAXIMUM_WORKERS {
      OrdinalsDiffer(n, n');
      OneByteChangesIdentifier(m, [operation, target], Ordinal(n), Ordinal(n'), [], 0);
      OneByteChangesIdentifier(d, [operation, target], Ordinal(n), Ordinal(n'), [], 0);
      assert [operation, target] + [Ordinal(n)] + [] == [operation, target, Ordinal(n)];
      assert [operation, target] + [Ordinal(n')] + [] == [operation, target, Ordinal(n')];
    }
  }

  predicate BothDiffer(a: DelegationIds, b: DelegationIds) {
    a.messageId != b.messageId && a.dispatchId != b.dispatchId
  }

  lemma OrdinalsDiffer(n: nat, n': nat)
    requires n < MAXIMUM_WORKERS && n' < MAXIMUM_WORKERS && n != n'
    ensures DiffersInOneByte(Ordinal(n), Ordinal(n'), 0)
  {
    hide Encode;
    EncodeAscii(Ordinal(n));
    EncodeAscii(Ordinal(n'));
    assert forall k :: 0 <= k < 10 ==> "0123456789"[k] as int == 48 + k;
  }
}
