/** Whole runs of a conductor operation: write-once records, a bounded number of changes, order-free outcomes. */
module ConductorRuns {
  import opened Outcomes
  import opened Strings
  import opened ConductorPlan
  import opened ConductorOperation

  datatype Call =
    | BeginPlanning
    | AcceptPlan(plan: Plan)
    | RecordWorkerOutcome(target: string, outcome: WorkerOutcome)
    | RecordSynthesis(answer: string)
    | MarkFinalSaved
    | MarkFailed
    | MarkExternalUnknown

  function Apply(op: Operation, c: Call): (Operation, Reply) {
    match c
    case BeginPlanning => PlanningBegun(op)
    case AcceptPlan(plan) => PlanAccepted(op, plan)
    case RecordWorkerOutcome(target, outcome) => OutcomeRecorded(op, target, outcome)
    case RecordSynthesis(answer) => SynthesisRecorded(op, answer)
    case MarkFinalSaved => FinalSaved(op)
    case MarkFailed => EndedAs(op, Failed)
    case MarkExternalUnknown => EndedAs(op, Unknown)
  }

  function Target(d: DelegationState): string {
    d.delegation.targetParticipantId
  }

  predicate DistinctWorkers(delegations: seq<DelegationState>) {
    forall i, j :: 0 <= i < j < |delegations| ==> Target(delegations[i]) != Target(delegations[j])
  }

  /** The worker states are those of the planned delegations, one for each and in order, under their own ids. */
  predicate Planned(ids: OperationIds, planned: seq<Delegation>, states: seq<DelegationState>) {
    && |states| == |planned|
    && forall i :: 0 <= i < |planned| ==> PlannedAt(ids, planned[i], states[i], i)
  }

  predicate PlannedAt(ids: OperationIds, d: Delegation, state: DelegationState, i: nat) {
    state.delegation == d && DeriveDelegationIds(ids, d.targetParticipantId, i) == Ok(state.ids)
  }

  /** What every reachable operation satisfies. */
  predicate Consistent(op: Operation) {
    && |op.delegations| <= MAXIMUM_WORKERS && DistinctWorkers(op.delegations)
    && (op.plan.None? ==> op.delegations == [] && op.pendingFinalAnswer.None?)
    && (op.plan.Some? ==> Planned(op.ids, op.plan.value.delegations, op.delegations))
    && (op.stage.Prepared? || op.stage.Planning? ==> op.plan.None?)
    && (op.plan.Some? && op.plan.value.mode.Answer? ==>
          op.delegations == [] && op.pendingFinalAnswer == op.plan.value.directAnswer)
    && (op.plan.Some? && op.plan.value.mode.Delegate? ==>
          op.delegations != [] && (op.pendingFinalAnswer.Some? ==> AllReported(op.delegations)))
    && (op.stage.Delegating? ==> op.plan.Some? && op.plan.value.mode.Delegate? && !AllReported(op.delegations))
    && (op.stage.Synthesizing? || op.stage.Completed? ==> op.plan.Some? && AllReported(op.delegations))
    && (op.plan.Some? && op.plan.value.mode.Answer? ==> op.pendingFinalAnswer.Some?)
    && (op.stage.Completed? ==> op.pendingFinalAnswer.Some?)
  }

  // ---- Accepting a plan ----

  predicate Built(ids: OperationIds, planned: seq<Delegation>, states: seq<DelegationState>) {
    && |states| <= |planned|
    && forall i :: 0 <= i < |states| ==> PlannedAt(ids, planned[i], states[i], i) && states[i].outcome.None?
  }

  predicate Covers(targets: set<string>, states: seq<DelegationState>) {
    forall i :: 0 <= i < |states| ==> Target(states[i]) in targets
  }

  lemma {:induction false} BuiltStates(
    ids: OperationIds, planned: seq<Delegation>, targets: set<string>, states: seq<DelegationState>)
    requires Built(ids, planned, states) && Covers(targets, states) && DistinctWorkers(states)
    requires BuildStates(ids, planned, targets, states).Ok?
    ensures var r := BuildStates(ids, planned, targets, states).value;
            Built(ids, planned, r) && |r| == |planned| && DistinctWorkers(r)
    decreases |planned| - |states|
  {
    hide ValidIdentifier, ValidBoundedText, DeriveDelegationIds;
    if |states| < |planned| {
      var d := planned[|states|];
      var next := states + [DelegationState(d, DeriveDelegationIds(ids, d.targetParticipantId, |states|).value, None)];
      BuiltStates(ids, planned, targets + {d.targetParticipantId}, next);
    }
  }

  predicate Buildable(planned: seq<Delegation>, k: nat, targets: set<string>) {
    && DistinctTargets(planned)
    && forall i :: k <= i < |planned| ==>
         && ValidIdentifier(planned[i].targetParticipantId)
         && ValidBoundedText(planned[i].task, MAXIMUM_DELEGATION_TASK_BYTES)
         && planned[i].targetParticipantId !in targets
  }

  lemma {:induction false} BuildableBuilds(
    ids: OperationIds, planned: seq<Delegation>, targets: set<string>, states: seq<DelegationState>)
    requires |states| <= |planned| <= MAXIMUM_WORKERS && Buildable(planned, |states|, targets)
    ensures BuildStates(ids, planned, targets, states).Ok?
    decreases |planned| - |states|
  {
    hide ValidIdentifier, ValidBoundedText, Buildable, DeriveDelegationIds;
    if |states| < |planned| {
      var d := planned[|states|];
      OneMoreIsBuildable(ids, planned, |states|, targets);
      var next := states + [DelegationState(d, DeriveDelegationIds(ids, d.targetParticipantId, |states|).value, None)];
      BuildableBuilds(ids, planned, targets + {d.targetParticipantId}, next);
    }
  }

  lemma OneMoreIsBuildable(ids: OperationIds, planned: seq<Delegation>, k: nat, targets: set<string>)
    requires k < |planned| <= MAXIMUM_WORKERS && Buildable(planned, k, targets)
    ensures var d := planned[k];
            && ValidIdentifier(d.targetParticipantId) && ValidBoundedText(d.task, MAXIMUM_DELEGATION_TASK_BYTES)
            && d.targetParticipantId !in targets && DeriveDelegationIds(ids, d.targetParticipantId, k).Ok?
            && Buildable(planned, k + 1, targets + {d.targetParticipantId})
  {
    hide ValidIdentifier, ValidBoundedText;
  }

  lemma AllowedIsBuildable(planned: seq<Delegation>, context: Context)
    requires ValidContext(context) && AllAllowed(planned, context)
    ensures Buildable(planned, 0, {})
  {
    forall i | 0 <= i < |planned|
      ensures ValidIdentifier(planned[i].targetParticipantId)
              && ValidBoundedText(planned[i].task, MAXIMUM_DELEGATION_TASK_BYTES)
    {
      assert MayDelegate(planned[i], context);
    }
  }

  /** A plan that parses is always accepted by an operation that waits for its plan. */
  lemma ParsedPlanIsAccepted(op: Operation, input: seq<byte>, envelope: Option<RawPlan>, context: Context, plan: Plan)
    requires op.stage.Planning? && op.plan.None? && Parse(input, envelope, context) == Ok(plan)
    ensures PlanAccepted(op, plan).1.None? && PlanAccepted(op, plan).0.plan == Some(plan)
  {
    ParsesExactly(input, envelope, context, plan);
    hide Parse, ValidContext, ValidBoundedText;
    if plan.mode.Delegate? {
      AllowedIsBuildable(plan.delegations, context);
      BuildableBuilds(op.ids, plan.delegations, {}, []);
    }
  }

  // ---- One call ----

  lemma CallKeepsConsistent(op: Operation, c: Call)
    requires Consistent(op)
    ensures Consistent(Apply(op, c).0)
  {
    hide ValidBoundedText, ValidWorkerOutcome;
    match c
    case AcceptPlan(plan) => AcceptKeepsConsistent(op, plan);
    case RecordWorkerOutcome(target, outcome) => OutcomeKeepsConsistent(op, target, outcome);
    case _ =>
  }

  lemma AcceptKeepsConsistent(op: Operation, plan: Plan)
    requires Consistent(op)
    ensures Consistent(PlanAccepted(op, plan).0)
  {
    hide ValidBoundedText, BuildStates, Planned, DistinctWorkers, AllReported, Built;
    NoStates(op.ids);
    if plan.mode.Delegate? && BuildStates(op.ids, plan.delegations, {}, []).Ok? {
      BuiltStates(op.ids, plan.delegations, {}, []);
      BuiltIsPlanned(op.ids, plan.delegations, BuildStates(op.ids, plan.delegations, {}, []).value);
    }
  }

  lemma NoStates(ids: OperationIds)
    ensures Planned(ids, [], []) && AllReported([]) && DistinctWorkers([])
    ensures forall planned :: Built(ids, planned, [])
  {}

  lemma BuiltIsPlanned(ids: OperationIds, planned: seq<Delegation>, states: seq<DelegationState>)
    requires Built(ids, planned, states) && |states| == |planned|
    ensures Planned(ids, planned, states) && (planned != [] ==> !AllReported(states))
  {
    hide PlannedAt;
    if planned != [] { assert states[0] in states && states[0].outcome.None?; }
  }

  lemma OutcomeKeepsConsistent(op: Operation, target: string, outcome: WorkerOutcome)
    requires Consistent(op)
    ensures Consistent(OutcomeRecorded(op, target, outcome).0)
  {
    hide ValidWorkerOutcome, AllReported;
  }

  /** Everything recorded stays as it is: the plan, each delegation and outcome, the answer, and a final stage. */
  predicate Extends(op: Operation, op': Operation) {
    && op'.ids == op.ids && op'.sourceMessageId == op.sourceMessageId && op'.conductorId == op.conductorId
    && (op.plan.Some? ==> op'.plan == op.plan && |op'.delegations| == |op.delegations|)
    && (op.plan.Some? ==> forall i :: 0 <= i < |op.delegations| ==> Keeps(op.delegations[i], op'.delegations[i]))
    && (op.pendingFinalAnswer.Some? ==> op'.pendingFinalAnswer == op.pendingFinalAnswer)
    && (op.stage.Terminal() ==> op' == op)
  }

  predicate Keeps(d: DelegationState, d': DelegationState) {
    d'.delegation == d.delegation && d'.ids == d.ids && (d.outcome.Some? ==> d'.outcome == d.outcome)
  }

  lemma CallExtends(op: Operation, c: Call)
    requires Consistent(op)
    ensures Extends(op, Apply(op, c).0)
    ensures Apply(op, c).1.Some? ==> Apply(op, c).0 == op
  {
    hide ValidBoundedText, ValidWorkerOutcome, BuildStates, AllReported, Planned, DistinctWorkers;
  }

  /** How many changes an operation can still go through. */
  function Measure(op: Operation): nat {
    match op.stage
    case Prepared => 7
    case Planning => 6
    case Delegating => 2 + Open(op.delegations)
    case Synthesizing => if op.pendingFinalAnswer.Some? then 1 else 2
    case _ => 0
  }

  function Open(delegations: seq<DelegationState>): (n: nat)
    ensures n <= |delegations|
    ensures !AllReported(delegations) ==> n > 0
  {
    if delegations == [] then 0
    else (if delegations[0].outcome.None? then 1 else 0) + Open(delegations[1..])
  }

  lemma {:induction false} ReportingCloses(delegations: seq<DelegationState>, i: nat, outcome: WorkerOutcome)
    requires i < |delegations| && delegations[i].outcome.None?
    ensures Open(delegations[i := delegations[i].(outcome := Some(outcome))]) == Open(delegations) - 1
  {
    var after := delegations[i := delegations[i].(outcome := Some(outcome))];
    if i == 0 {
      assert after[1..] == delegations[1..];
    } else {
      ReportingCloses(delegations[1..], i - 1, outcome);
      assert after[1..] == delegations[1..][i - 1 := delegations[1..][i - 1].(outcome := Some(outcome))];
    }
  }

  /** A call that changes anything brings the operation closer to its end. */
  lemma ChangeLowersMeasure(op: Operation, c: Call)
    requires Consistent(op) && Apply(op, c).0 != op
    ensures Measure(Apply(op, c).0) < Measure(op)
  {
    hide ValidBoundedText, ValidWorkerOutcome, BuildStates, AllReported, Planned, DistinctWorkers;
    match c
    case AcceptPlan(plan) => AcceptKeepsConsistent(op, plan);
    case RecordWorkerOutcome(target, outcome) =>
      ReportingCloses(op.delegations, Worker(op.delegations, target).value, outcome);
    case _ =>
  }

  // ---- Runs ----

  predicate Run(states: seq<Operation>, calls: seq<Call>) {
    && |states| == |calls| + 1
    && Untouched(states[0])
    && forall k :: 0 <= k < |calls| ==> Moves(states[k], calls[k], states[k + 1])
  }

  predicate Moves(op: Operation, c: Call, op': Operation) {
    op' == Apply(op, c).0
  }

  lemma {:induction false} RunIsConsistent(states: seq<Operation>, calls: seq<Call>, k: nat)
    requires Run(states, calls) && k <= |calls|
    ensures Consistent(states[k])
  {
    if k > 0 {
      hide Consistent, Apply;
      RunIsConsistent(states, calls, k - 1);
      assert Moves(states[k - 1], calls[k - 1], states[k]);
      CallKeepsConsistent(states[k - 1], calls[k - 1]);
    }
  }

  // ---- What a run asks for ----

  /** Every planned delegation with the outcome of its worker, in the order of the plan. */
  predicate Answers(op: Operation, results: seq<DelegationState>) {
    && op.plan.Some? && Planned(op.ids, op.plan.value.delegations, results)
    && forall i :: 0 <= i < |results| ==> results[i].outcome.Some?
  }

  predicate Delegates(op: Operation) {
    op.plan.Some? && op.plan.value.mode.Delegate? && op.plan.value.delegations != []
  }

  /** What an operation may ask for next, in terms of its plan alone. */
  predicate AsksFor(op: Operation, action: NextAction) {
    match action
    case DoBeginPlanning => op.stage.Prepared? && op.plan.None?
    case RequestPlan(id) => op.stage.Planning? && op.plan.None? && id == op.ids.operationId
    case DispatchWorkers(pending) =>
      && op.stage.Delegating? && Delegates(op) && pending != []
      && Planned(op.ids, op.plan.value.delegations, op.delegations)
      && (forall d <- pending :: d in op.delegations && d.outcome.None?)
      && (forall d <- op.delegations :: d.outcome.None? ==> d in pending)
    case RequestSynthesis(id, results) =>
      && op.stage.Synthesizing? && op.pendingFinalAnswer.None?
      && Delegates(op) && id == op.ids.operationId && Answers(op, results)
    case SaveFinalAnswer(id, body) =>
      && op.stage.Synthesizing? && op.pendingFinalAnswer == Some(body)
      && id == op.ids.finalMessageId && Answers(op, op.delegations)
      && (Delegates(op) || op.plan.value.directAnswer == Some(body))
  }

  /** Nothing is left to do exactly at the end of a run, however it got there. */
  lemma NothingToDoExactlyAtTheEnd(states: seq<Operation>, calls: seq<Call>, k: nat)
    requires Run(states, calls) && k <= |calls|
    ensures FindNextAction(states[k]).None? <==> states[k].stage.Terminal()
  {
    hide Consistent, FindNextAction;
    RunIsConsistent(states, calls, k);
    ConsistentAsks(states[k]);
  }

  /**
   In every run, synthesis is asked for with every planned delegation and its outcome, in the order of the plan;
   a delegated answer is saved, and an operation completed, only when all of them are there as well.
   */
  lemma EveryWorkerReportsFirst(states: seq<Operation>, calls: seq<Call>, k: nat)
    requires Run(states, calls) && k <= |calls|
    ensures FindNextAction(states[k]).Some? ==> AsksFor(states[k], FindNextAction(states[k]).value)
    ensures states[k].stage.Completed? ==> CompletesWith(states[k])
  {
    hide Consistent, FindNextAction, AsksFor, CompletesWith;
    RunIsConsistent(states, calls, k);
    ConsistentAsks(states[k]);
  }

  /** All outcomes are there, and so is the answer: the plan's own, if it did not delegate. */
  predicate CompletesWith(op: Operation) {
    && Answers(op, op.delegations) && op.pendingFinalAnswer.Some?
    && (Delegates(op) || op.plan.value.directAnswer == op.pendingFinalAnswer)
  }

  lemma ConsistentAsks(op: Operation)
    requires Consistent(op)
    ensures FindNextAction(op).None? <==> op.stage.Terminal()
    ensures FindNextAction(op).Some? ==> AsksFor(op, FindNextAction(op).value)
    ensures op.stage.Completed? ==> CompletesWith(op)
  {
    hide DistinctWorkers, PlannedAt;
  }

  /** No outcome is made up: each was reported by a call of the run for that very worker. */
  lemma {:induction false} OutcomeWasReported(states: seq<Operation>, calls: seq<Call>, k: nat, i: nat)
    returns (m: nat)
    requires Run(states, calls) && k <= |calls|
    requires i < |states[k].delegations| && states[k].delegations[i].outcome.Some?
    ensures m < k && states[m].stage.Delegating?
    ensures var d := states[k].delegations[i]; calls[m] == RecordWorkerOutcome(Target(d), d.outcome.value)
  {
    hide Consistent, Apply;
    assert k > 0;
    var before, now := states[k - 1], states[k];
    assert Moves(before, calls[k - 1], now);
    RunIsConsistent(states, calls, k - 1);
    OutcomeBefore(before, calls[k - 1], i);
    if i < |before.delegations| && before.delegations[i] == now.delegations[i] {
      m := OutcomeWasReported(states, calls, k - 1, i);
    } else {
      m := k - 1;
    }
  }

  /** Nor is a delegated answer: it is the argument of an accepted synthesis of the run. */
  lemma {:induction false} AnswerWasRecorded(states: seq<Operation>, calls: seq<Call>, k: nat) returns (m: nat)
    requires Run(states, calls) && k <= |calls|
    requires Delegates(states[k]) && states[k].pendingFinalAnswer.Some?
    ensures m < k && states[m].stage.Synthesizing? && Answers(states[m], states[m].delegations)
    ensures calls[m] == RecordSynthesis(states[k].pendingFinalAnswer.value)
  {
    hide Consistent, Apply, Answers;
    assert k > 0;
    var before, now := states[k - 1], states[k];
    assert Moves(before, calls[k - 1], now);
    RunIsConsistent(states, calls, k - 1);
    AnswerBefore(before, calls[k - 1]);
    if Delegates(before) && before.pendingFinalAnswer == now.pendingFinalAnswer {
      m := AnswerWasRecorded(states, calls, k - 1);
    } else {
      m := k - 1;
    }
  }

  lemma AnswerBefore(op: Operation, c: Call)
    requires Consistent(op) && Delegates(Apply(op, c).0) && Apply(op, c).0.pendingFinalAnswer.Some?
    ensures || (Delegates(op) && op.pendingFinalAnswer == Apply(op, c).0.pendingFinalAnswer)
            || (op.stage.Synthesizing? && Answers(op, op.delegations)
                && c == RecordSynthesis(Apply(op, c).0.pendingFinalAnswer.value))
  {
    hide ValidBoundedText, ValidWorkerOutcome, BuildStates, PlannedAt, DistinctWorkers;
  }

  lemma OutcomeBefore(op: Operation, c: Call, i: nat)
    requires Consistent(op)
    requires var op' := Apply(op, c).0; i < |op'.delegations| && op'.delegations[i].outcome.Some?
    ensures var d := Apply(op, c).0.delegations[i];
            || (i < |op.delegations| && op.delegations[i] == d)
            || (op.stage.Delegating? && c == RecordWorkerOutcome(Target(d), d.outcome.value))
  {
    hide ValidBoundedText, ValidWorkerOutcome, BuildStates, AllReported, PlannedAt, Planned, DistinctWorkers;
    match c
    case AcceptPlan(plan) =>
      if plan.mode.Delegate? && Apply(op, c).0 != op {
        BuiltStates(op.ids, plan.delegations, {}, []);
      }
    case _ =>
  }

  lemma ExtendsIsTransitive(a: Operation, b: Operation, c: Operation)
    requires Extends(a, b) && Extends(b, c)
    ensures Extends(a, c)
  {
    if a.plan.Some? {
      forall i | 0 <= i < |a.delegations| ensures Keeps(a.delegations[i], c.delegations[i]) {
        assert Keeps(a.delegations[i], b.delegations[i]) && Keeps(b.delegations[i], c.delegations[i]);
      }
    }
  }

  /** In every run, what one state has recorded is unchanged in every later state. */
  lemma {:induction false} RecordedIsWriteOnce(states: seq<Operation>, calls: seq<Call>, i: nat, j: nat)
    requires Run(states, calls) && i <= j <= |calls|
    ensures Extends(states[i], states[j])
  {
    hide Consistent, Apply;
    if i < j {
      RecordedIsWriteOnce(states, calls, i, j - 1);
      RunIsConsistent(states, calls, j - 1);
      assert Moves(states[j - 1], calls[j - 1], states[j]);
      CallExtends(states[j - 1], calls[j - 1]);
      ExtendsIsTransitive(states[i], states[j - 1], states[j]);
    }
  }

  /** The number of calls that changed something among the first `k`. */
  function Changes(states: seq<Operation>, k: nat): nat
    requires k < |states|
  {
    if k == 0 then 0 else Changes(states, k - 1) + if states[k] != states[k - 1] then 1 else 0
  }

  /** A run changes an operation at most seven times, whatever is called and however often. */
  lemma {:induction false} AtMostSevenChanges(states: seq<Operation>, calls: seq<Call>, k: nat)
    requires Run(states, calls) && k <= |calls|
    ensures Changes(states, k) + Measure(states[k]) <= 7
  {
    if k > 0 {
      hide Consistent, Apply, Measure;
      AtMostSevenChanges(states, calls, k - 1);
      RunIsConsistent(states, calls, k - 1);
      assert Moves(states[k - 1], calls[k - 1], states[k]);
      if states[k] != states[k - 1] {
        ChangeLowersMeasure(states[k - 1], calls[k - 1]);
      }
    }
  }

  // ---- Outcomes in any order ----

  datatype Report = Report(target: string, outcome: WorkerOutcome)

  function RecordAll(op: Operation, reports: seq<Report>): Operation
    decreases |reports|
  {
    if reports == [] then op
    else RecordAll(OutcomeRecorded(op, reports[0].target, reports[0].outcome).0, reports[1..])
  }

  /** Reports a worker of this operation could make: valid, never contradicting each other or what is recorded. */
  predicate Acceptable(op: Operation, reports: set<Report>) {
    && (forall r <- reports :: Worker(op.delegations, r.target).Some? && ValidWorkerOutcome(r.outcome))
    && (forall r <- reports, r' <- reports :: r.target == r'.target ==> r == r')
    && (forall r <- reports, d <- op.delegations ::
          Target(d) == r.target && d.outcome.Some? ==> d.outcome.value == r.outcome)
  }

  function ToSet(reports: seq<Report>): set<Report> {
    set r <- reports
  }

  /** What a set of reports makes of one delegation. */
  ghost function Filled(d: DelegationState, reports: set<Report>): DelegationState {
    if d.outcome.None? && exists r <- reports :: r.target == Target(d) then
      var r :| r in reports && r.target == Target(d);
      d.(outcome := Some(r.outcome))
    else d
  }

  ghost function FilledAll(delegations: seq<DelegationState>, reports: set<Report>): seq<DelegationState> {
    seq(|delegations|, i requires 0 <= i < |delegations| => Filled(delegations[i], reports))
  }

  /** The operation once a set of reports has arrived, with no order left in it. */
  ghost function Reported(op: Operation, reports: set<Report>): Operation {
    var delegations := FilledAll(op.delegations, reports);
    op.(delegations := delegations,
         stage := if op.stage.Delegating? && AllReported(delegations) then Synthesizing else op.stage)
  }

  lemma RecordThenFill(op: Operation, r: Report, rest: set<Report>, i: nat)
    requires Consistent(op) && (op.stage.Delegating? || AllReported(op.delegations))
    requires Acceptable(op, {r} + rest) && i < |op.delegations|
    ensures |OutcomeRecorded(op, r.target, r.outcome).0.delegations| == |op.delegations|
    ensures Filled(OutcomeRecorded(op, r.target, r.outcome).0.delegations[i], rest)
        == Filled(op.delegations[i], {r} + rest)
  {
    hide ValidWorkerOutcome, Consistent;
    assert DistinctWorkers(op.delegations) by { RevealDistinct(op); }
    assert r in {r} + rest;
    var w := Worker(op.delegations, r.target).value;
    var d := op.delegations[i];
    assert d in op.delegations && op.delegations[w] in op.delegations;
    if i == w && d.outcome.None? {
      assert Target(d) == r.target;
    } else if d.outcome.None? {
      assert Target(d) != r.target;
      assert forall x :: x in {r} + rest && x.target == Target(d) <==> x in rest && x.target == Target(d);
    }
  }

  lemma RevealDistinct(op: Operation)
    requires Consistent(op)
    ensures DistinctWorkers(op.delegations)
  {}

  lemma RecordKeepsAcceptable(op: Operation, r: Report, rest: set<Report>)
    requires Consistent(op) && Acceptable(op, {r} + rest)
    ensures Acceptable(OutcomeRecorded(op, r.target, r.outcome).0, rest)
  {
    hide ValidWorkerOutcome, Consistent, AllReported;
    RevealDistinct(op);
    var op' := OutcomeRecorded(op, r.target, r.outcome).0;
    assert r in {r} + rest && forall x <- rest :: x in {r} + rest;
    forall x <- rest ensures Worker(op'.delegations, x.target).Some? {
      var k := Worker(op.delegations, x.target).value;
      assert op'.delegations[k] in op'.delegations && Target(op'.delegations[k]) == x.target;
    }
    forall x <- rest, d <- op'.delegations | Target(d) == x.target && d.outcome.Some?
      ensures d.outcome.value == x.outcome
    {
      if d !in op.delegations {
        assert Target(d) == r.target && d.outcome == Some(r.outcome);
      }
    }
  }

  /** Any list of acceptable reports, with any repetitions, leaves exactly the state of the set it contains. */
  lemma {:induction false} RecordAllIsReported(op: Operation, reports: seq<Report>)
    requires Consistent(op) && (op.stage.Delegating? || AllReported(op.delegations))
    requires Acceptable(op, ToSet(reports))
    ensures RecordAll(op, reports) == Reported(op, ToSet(reports))
    decreases |reports|
  {
    hide Consistent, Acceptable, AllReported, OutcomeRecorded, Reported;
    if reports == [] {
      assert ToSet(reports) == {};
      NothingReported(op);
    } else {
      var r, rest := reports[0], reports[1..];
      assert ToSet(reports) == {r} + ToSet(rest) by {
        assert forall x :: x in reports <==> x == r || x in rest;
      }
      var op' := OutcomeRecorded(op, r.target, r.outcome).0;
      RecordKeepsAcceptable(op, r, ToSet(rest));
      OutcomeKeepsConsistent(op, r.target, r.outcome);
      RecordOpens(op, r.target, r.outcome);
      RecordAllIsReported(op', rest);
      FillAfterRecord(op, r, ToSet(rest));
    }
  }

  lemma NothingReported(op: Operation)
    requires Consistent(op)
    ensures Reported(op, {}) == op
  {
    hide Planned, DistinctWorkers;
    assert FilledAll(op.delegations, {}) == op.delegations;
  }

  lemma RecordOpens(op: Operation, target: string, outcome: WorkerOutcome)
    requires op.stage.Delegating? || AllReported(op.delegations)
    ensures var op' := OutcomeRecorded(op, target, outcome).0;
            op'.stage.Delegating? || AllReported(op'.delegations)
  {}

  lemma FillAfterRecord(op: Operation, r: Report, rest: set<Report>)
    requires Consistent(op) && (op.stage.Delegating? || AllReported(op.delegations))
    requires Acceptable(op, {r} + rest)
    ensures Reported(OutcomeRecorded(op, r.target, r.outcome).0, rest) == Reported(op, {r} + rest)
  {
    hide ValidWorkerOutcome, Consistent, Acceptable, Filled;
    var op' := OutcomeRecorded(op, r.target, r.outcome).0;
    forall i | 0 <= i < |op.delegations|
      ensures |op'.delegations| == |op.delegations| && Filled(op'.delegations[i], rest)
          == Filled(op.delegations[i], {r} + rest)
    {
      RecordThenFill(op, r, rest, i);
    }
    assert |op'.delegations| == |op.delegations|;
    assert FilledAll(op'.delegations, rest) == FilledAll(op.delegations, {r} + rest);
    FilledKeepsReported(op'.delegations, rest);
  }

  lemma FilledKeepsReported(delegations: seq<DelegationState>, reports: set<Report>)
    ensures AllReported(delegations) ==> AllReported(FilledAll(delegations, reports))
  {}

  /** The same reports in another order, with other repetitions, give the identical operation. */
  lemma OrderDoesNotMatter(op: Operation, reports: seq<Report>, reports': seq<Report>)
    requires Consistent(op) && op.stage.Delegating?
    requires Acceptable(op, ToSet(reports)) && ToSet(reports) == ToSet(reports')
    ensures RecordAll(op, reports) == RecordAll(op, reports')
  {
    RecordAllIsReported(op, reports);
    RecordAllIsReported(op, reports');
  }
}
