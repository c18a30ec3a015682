/** The plan a conductor answers with: what an envelope must say, and which participants may be delegated to. */
module ConductorPlan {
  import opened Outcomes
  import opened Collections
  import opened Strings
  import Rooms = RoomSnapshots

  const MAXIMUM_PLAN_BYTES := 16_000
  const MAXIMUM_DIRECT_ANSWER_BYTES := 100_000
  const MAXIMUM_DELEGATION_TASK_BYTES := 4_000
  const MAXIMUM_RESULT_TEXT_BYTES := 100_000
  const MAXIMUM_WORKERS := 3

  datatype Participant = Participant(id: string, kind: Rooms.ParticipantKind, canReceiveDelegation: bool)

  datatype Context = Context(ownerId: string, conductorId: string, participants: seq<Participant>)

  datatype PlanMode = Answer | Delegate

  datatype Delegation = Delegation(targetParticipantId: string, task: string)

  datatype Plan = Plan(version: nat, mode: PlanMode, directAnswer: Option<string>, delegations: seq<Delegation>)

  /** What `serde_json` makes of an envelope whose fields have the right names and types. */
  datatype JsonValue = Null | Text(value: string) | OtherJson

  datatype RawPlan = RawPlan(version: nat, mode: PlanMode, directAnswer: JsonValue, delegations: seq<Delegation>)

  datatype PlanError =
    | InvalidContext
    | InvalidUtf8
    | EnvelopeTooLarge
    | InvalidEnvelope
    | UnsupportedVersion
    | InvalidDirectAnswer
    | InvalidDelegationCount
    | InvalidDelegationTask
    | DuplicateTarget
    | TargetIsOwner
    | TargetIsConductor
    | TargetNotRoomMember
    | TargetIsHuman
    | TargetUnsupported

  predicate ValidBoundedText(value: string, maximum: nat) {
    Trim(value) != "" && ByteLength(value) <= maximum
  }

  function FindParticipant(participants: seq<Participant>, id: string): (r: Option<Participant>)
    ensures r.Some? ==> r.value in participants && r.value.id == id
    ensures r.None? ==> forall p <- participants :: p.id != id
  {
    Find(participants, (p: Participant) => p.id == id)
  }

  /** `validate_context`: identifiers are valid and distinct, the owner is human and the conductor is not. */
  predicate ValidContext(context: Context) {
    && ValidIdentifier(context.ownerId) && ValidIdentifier(context.conductorId)
    && context.ownerId != context.conductorId
    && (forall p <- context.participants :: ValidIdentifier(p.id))
    && (forall i, j :: 0 <= i < j < |context.participants| ==> context.participants[i].id != context.participants[j].id)
    && (var owner := FindParticipant(context.participants, context.ownerId); owner.Some? && owner.value.kind.Human?)
    && (var conductor := FindParticipant(context.participants, context.conductorId);
        conductor.Some? && conductor.value.kind.Ai?)
  }

  /** The error `validate_delegations` reports for one delegation, given the targets before it. */
  function DelegationError(d: Delegation, targets: set<string>, context: Context): Option<PlanError> {
    if !ValidBoundedText(d.task, MAXIMUM_DELEGATION_TASK_BYTES) then Some(InvalidDelegationTask)
    else if d.targetParticipantId == context.ownerId then Some(TargetIsOwner)
    else if d.targetParticipantId == context.conductorId then Some(TargetIsConductor)
    else if d.targetParticipantId in targets then Some(DuplicateTarget)
    else
      match FindParticipant(context.participants, d.targetParticipantId)
      case None => Some(TargetNotRoomMember)
      case Some(p) =>
        if !p.kind.Ai? then Some(TargetIsHuman)
        else if !p.canReceiveDelegation then Some(TargetUnsupported)
        else None
  }

  function DelegationsError(delegations: seq<Delegation>, targets: set<string>, context: Context): Option<PlanError>
    decreases |delegations|
  {
    if delegations == [] then None
    else
      match DelegationError(delegations[0], targets, context)
      case Some(e) => Some(e)
      case None => DelegationsError(delegations[1..], targets + {delegations[0].targetParticipantId}, context)
  }

  /** A delegation that goes to a capable AI of the room other than the owner and the conductor. */
  predicate MayDelegate(d: Delegation, context: Context) {
    && ValidBoundedText(d.task, MAXIMUM_DELEGATION_TASK_BYTES)
    && d.targetParticipantId != context.ownerId && d.targetParticipantId != context.conductorId
    && exists p <- context.participants :: p.id == d.targetParticipantId && p.kind.Ai? && p.canReceiveDelegation
  }

  predicate DistinctTargets(delegations: seq<Delegation>) {
    forall i, j :: 0 <= i < j < |delegations| ==>
      delegations[i].targetParticipantId != delegations[j].targetParticipantId
  }

  predicate AllAllowed(delegations: seq<Delegation>, context: Context) {
    AllAllowedBeside(delegations, {}, context)
  }

  lemma FindIsUnique(participants: seq<Participant>, p: Participant)
    requires p in participants
    requires forall i, j :: 0 <= i < j < |participants| ==> participants[i].id != participants[j].id
    ensures FindParticipant(participants, p.id) == Some(p)
  {
    var q := FindParticipant(participants, p.id).value;
    var i :| 0 <= i < |participants| && participants[i] == p;
    var j :| 0 <= j < |participants| && participants[j] == q;
    assert i == j;
  }

  /** What may be delegated to once `targets` are taken. */
  predicate AllAllowedBeside(delegations: seq<Delegation>, targets: set<string>, context: Context) {
    && (forall d <- delegations :: MayDelegate(d, context) && d.targetParticipantId !in targets)
    && DistinctTargets(delegations)
  }

  lemma NothingIsAllowed(targets: set<string>, context: Context)
    ensures AllAllowedBeside([], targets, context)
  {}

  lemma AllowedOneByOne(d: Delegation, rest: seq<Delegation>, targets: set<string>, context: Context)
    ensures AllAllowedBeside([d] + rest, targets, context) <==>
              && MayDelegate(d, context) && d.targetParticipantId !in targets
              && AllAllowedBeside(rest, targets + {d.targetParticipantId}, context)
  {
    hide MayDelegate;
    var all := [d] + rest;
    assert forall x :: x in all <==> x == d || x in rest;
    if DistinctTargets(all) {
      forall i, j | 0 <= i < j < |rest| ensures rest[i].targetParticipantId != rest[j].targetParticipantId {
        assert all[i + 1] == rest[i] && all[j + 1] == rest[j];
      }
      forall k | 0 <= k < |rest| ensures rest[k].targetParticipantId != d.targetParticipantId {
        assert all[0] == d && all[k + 1] == rest[k];
      }
    }
  }

  /** The ordered, set-based loop accepts exactly the delegations that are all allowed and all different. */
  lemma {:induction false} DelegationsAcceptedExactly(
    delegations: seq<Delegation>, targets: set<string>, context: Context)
    requires ValidContext(context)
    ensures DelegationsError(delegations, targets, context).None? <==> AllAllowedBeside(delegations, targets, context)
    decreases |delegations|
  {
    hide DelegationError, ValidContext, AllAllowedBeside;
    if delegations == [] {
      NothingIsAllowed(targets, context);
    } else {
      var d, rest := delegations[0], delegations[1..];
      DelegationsAcceptedExactly(rest, targets + {d.targetParticipantId}, context);
      OneAcceptedExactly(d, targets, context);
      assert delegations == [d] + rest;
      AllowedOneByOne(d, rest, targets, context);
    }
  }

  lemma OneAcceptedExactly(d: Delegation, targets: set<string>, context: Context)
    requires ValidContext(context)
    ensures DelegationError(d, targets, context).None? <==> MayDelegate(d, context) && d.targetParticipantId !in targets
  {
    if MayDelegate(d, context) {
      var p :| p in context.participants && p.id == d.targetParticipantId && p.kind.Ai? && p.canReceiveDelegation;
      FindIsUnique(context.participants, p);
    }
  }

  method ValidateDelegations(delegations: seq<Delegation>, context: Context) returns (error: Option<PlanError>)
    ensures error == DelegationsError(delegations, {}, context)
  {
    var targets: set<string> := {};
    for i := 0 to |delegations|
      invariant DelegationsError(delegations, {}, context) == DelegationsError(delegations[i..], targets, context)
    {
      hide DelegationError;
      assert delegations[i..][1..] == delegations[i + 1..];
      error := DelegationError(delegations[i], targets, context);
      if error.Some? {
        return;
      }
      targets := targets + {delegations[i].targetParticipantId};
    }
    error := None;
  }

  /** The plan an envelope of the right shape describes. */
  function PlanOf(raw: RawPlan, context: Context): Result<Plan, PlanError> {
    if raw.version != 1 then Err(UnsupportedVersion)
    else if raw.directAnswer.OtherJson? then Err(InvalidDirectAnswer)
    else
      var answer := if raw.directAnswer.Null? then None else Some(raw.directAnswer.value);
      match raw.mode
      case Answer =>
        if raw.delegations == [] && answer.Some? && ValidBoundedText(answer.value, MAXIMUM_DIRECT_ANSWER_BYTES)
        then Ok(Plan(1, Answer, answer, []))
        else Err(InvalidDirectAnswer)
      case Delegate =>
        if answer.Some? || !(1 <= |raw.delegations| <= MAXIMUM_WORKERS) then Err(InvalidDelegationCount)
        else
          match DelegationsError(raw.delegations, {}, context)
          case Some(e) => Err(e)
          case None => Ok(Plan(1, Delegate, None, raw.delegations))
  }

  /** `parse_conductor_plan_v1`; `envelope` is the parsed JSON of `input`, if it parses. */
  function Parse(input: seq<byte>, envelope: Option<RawPlan>, context: Context): Result<Plan, PlanError> {
    if !ValidContext(context) then Err(InvalidContext)
    else if |input| > MAXIMUM_PLAN_BYTES then Err(EnvelopeTooLarge)
    else if Decode(input).None? then Err(InvalidUtf8)
    else if envelope.None? then Err(InvalidEnvelope)
    else PlanOf(envelope.value, context)
  }

  /** What a parsed plan promises, in terms of the room it was parsed for. */
  predicate Executable(plan: Plan, context: Context) {
    match plan.mode
    case Answer => plan.delegations == [] && plan.directAnswer.Some?
      && ValidBoundedText(plan.directAnswer.value, MAXIMUM_DIRECT_ANSWER_BYTES)
    case Delegate =>
      && plan.directAnswer.None? && 1 <= |plan.delegations| <= MAXIMUM_WORKERS
      && AllAllowed(plan.delegations, context)
  }

  /** The envelope that says exactly this plan. */
  function EnvelopeOf(plan: Plan): RawPlan {
    RawPlan(plan.version, plan.mode,
            if plan.directAnswer.None? then Null else Text(plan.directAnswer.value), plan.delegations)
  }

  lemma AllowedExactly(delegations: seq<Delegation>, context: Context)
    requires ValidContext(context)
    ensures DelegationsError(delegations, {}, context).None? <==> AllAllowed(delegations, context)
  {
    DelegationsAcceptedExactly(delegations, {}, context);
  }

  lemma DescribesExactly(raw: RawPlan, context: Context, plan: Plan)
    requires ValidContext(context)
    ensures PlanOf(raw, context) == Ok(plan) <==>
              raw == EnvelopeOf(plan) && plan.version == 1 && Executable(plan, context)
  {
    hide ValidBoundedText, DelegationsError, ValidContext, AllAllowed;
    AllowedExactly(raw.delegations, context);
  }

  /** A plan parses exactly when the room is well formed and the envelope readable and describes an executable plan. */
  lemma ParsesExactly(input: seq<byte>, envelope: Option<RawPlan>, context: Context, plan: Plan)
    ensures Parse(input, envelope, context) == Ok(plan) <==>
              && ValidContext(context)
              && |input| <= MAXIMUM_PLAN_BYTES && Decode(input).Some?
              && envelope == Some(EnvelopeOf(plan)) && plan.version == 1 && Executable(plan, context)
  {
    hide Decode, PlanOf, Executable, ValidContext;
    if ValidContext(context) && envelope.Some? {
      DescribesExactly(envelope.value, context, plan);
    }
  }
}
