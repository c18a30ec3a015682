/** Why a plan is refused: for every envelope and room, exactly which error is reported. */
module ConductorRefusals {
  import opened Outcomes
  import opened Strings
  import opened ConductorPlan

  predicate HasPerson(context: Context, id: string, kind: Rooms.ParticipantKind) {
    exists p <- context.participants :: p.id == id && p.kind == kind
  }

  /** A room is well formed exactly with valid, different ids, a human owner and an AI conductor in it. */
  lemma ContextsExactly(context: Context)
    ensures ValidContext(context) <==>
              && ValidIdentifier(context.ownerId) && ValidIdentifier(context.conductorId)
              && context.ownerId != context.conductorId
              && (forall p <- context.participants :: ValidIdentifier(p.id))
              && (forall i, j :: 0 <= i < j < |context.participants| ==>
                    context.participants[i].id != context.participants[j].id)
              && HasPerson(context, context.ownerId, Rooms.Human) && HasPerson(context, context.conductorId, Rooms.Ai)
  {
    hide ValidIdentifier;
    if forall i, j :: 0 <= i < j < |context.participants| ==> context.participants[i].id != context.participants[j].id {
      forall p | p in context.participants ensures FindParticipant(context.participants, p.id) == Some(p) {
        FindIsUnique(context.participants, p);
      }
    }
  }

  predicate GoodTask(d: Delegation) {
    Trim(d.task) != "" && ByteLength(d.task) <= 4_000
  }

  predicate InRoom(d: Delegation, context: Context) {
    exists p <- context.participants :: p.id == d.targetParticipantId
  }

  predicate IsHuman(d: Delegation, context: Context) {
    exists p <- context.participants :: p.id == d.targetParticipantId && p.kind.Human?
  }

  /** Why one delegation is refused once `taken` are targets already: the first reason that applies. */
  predicate Refuses(d: Delegation, taken: set<string>, context: Context, e: PlanError) {
    var target := d.targetParticipantId;
    match e
    case InvalidDelegationTask => !GoodTask(d)
    case TargetIsOwner => GoodTask(d) && target == context.ownerId
    case TargetIsConductor => GoodTask(d) && target == context.conductorId
    case DuplicateTarget => GoodTask(d) && target != context.ownerId && target != context.conductorId && target in taken
    case TargetNotRoomMember => IsCandidate(d, taken, context) && !InRoom(d, context)
    case TargetIsHuman => IsCandidate(d, taken, context) && IsHuman(d, context)
    case TargetUnsupported =>
      IsCandidate(d, taken, context) && InRoom(d, context) && !IsHuman(d, context) && !MayDelegate(d, context)
    case _ => false
  }

  predicate IsCandidate(d: Delegation, taken: set<string>, context: Context) {
    && GoodTask(d) && d.targetParticipantId != context.ownerId && d.targetParticipantId != context.conductorId
    && d.targetParticipantId !in taken
  }

  lemma OneRefusedExactly(d: Delegation, taken: set<string>, context: Context, e: PlanError)
    requires ValidContext(context)
    ensures DelegationError(d, taken, context) == Some(e) <==> Refuses(d, taken, context, e)
  {
    hide ValidIdentifier, Trim, ByteLength;
    var found := FindParticipant(context.participants, d.targetParticipantId);
    forall p | p in context.participants && p.id == d.targetParticipantId ensures found == Some(p) {
      FindIsUnique(context.participants, p);
    }
  }

  function TargetsOf(delegations: seq<Delegation>): set<string> {
    set d <- delegations :: d.targetParticipantId
  }

  /** Delegation `i` is the first that is refused. */
  predicate RefusedAt(delegations: seq<Delegation>, taken: set<string>, context: Context, e: PlanError, i: nat) {
    && i < |delegations| && AllAllowedBeside(delegations[..i], taken, context)
    && Refuses(delegations[i], taken + TargetsOf(delegations[..i]), context, e)
  }

  ghost predicate RefusedWith(delegations: seq<Delegation>, taken: set<string>, context: Context, e: PlanError) {
    exists i: nat :: RefusedAt(delegations, taken, context, e, i)
  }

  /** The error for a list of delegations is that of the first one refused. */
  lemma {:induction false} FirstRefusalExactly(
    delegations: seq<Delegation>, taken: set<string>, context: Context, e: PlanError)
    requires ValidContext(context)
    ensures DelegationsError(delegations, taken, context) == Some(e) <==> RefusedWith(delegations, taken, context, e)
    decreases |delegations|
  {
    hide DelegationError, Refuses, ValidContext, RefusedAt, RefusedWith;
    if delegations == [] {
      NothingRefused(taken, context, e);
    } else {
      var d, rest := delegations[0], delegations[1..];
      FirstRefusalExactly(rest, taken + {d.targetParticipantId}, context, e);
      RefusedOneByOne(delegations, taken, context, e);
    }
  }

  lemma NothingRefused(taken: set<string>, context: Context, e: PlanError)
    ensures !RefusedWith([], taken, context, e)
  {}

  lemma RefusedOneByOne(delegations: seq<Delegation>, taken: set<string>, context: Context, e: PlanError)
    requires ValidContext(context) && delegations != []
    ensures var d := delegations[0];
            var error := DelegationError(d, taken, context);
            RefusedWith(delegations, taken, context, e) <==>
              if error.None? then RefusedWith(delegations[1..], taken + {d.targetParticipantId}, context, e)
              else error == Some(e)
  {
    hide DelegationError, Refuses, ValidContext, RefusedAt, MayDelegate;
    var d, rest := delegations[0], delegations[1..];
    var next := taken + {d.targetParticipantId};
    OneRefusedExactly(d, taken, context, e);
    OneAcceptedExactly(d, taken, context);
    RefusedFirst(delegations, taken, context, e);
    if DelegationError(d, taken, context).None? {
      forall i: nat ensures RefusedAt(delegations, taken, context, e, i + 1) <==> RefusedAt(rest, next, context, e, i) {
        RefusedLater(delegations, taken, context, e, i);
      }
      if i: nat :| RefusedAt(delegations, taken, context, e, i) {
        assert i > 0;
        var j: nat := i - 1;
        assert RefusedAt(delegations, taken, context, e, j + 1) && RefusedAt(rest, next, context, e, j);
      }
      if i: nat :| RefusedAt(rest, next, context, e, i) {
        assert RefusedAt(delegations, taken, context, e, i + 1);
      }
    } else if i: nat :| RefusedAt(delegations, taken, context, e, i) {
      OnlyFirst(delegations, taken, context, e, i);
    }
  }

  lemma RefusedFirst(delegations: seq<Delegation>, taken: set<string>, context: Context, e: PlanError)
    requires delegations != []
    ensures RefusedAt(delegations, taken, context, e, 0) <==> Refuses(delegations[0], taken, context, e)
  {
    hide Refuses;
    assert delegations[..0] == [] && taken + TargetsOf([]) == taken;
  }

  lemma OnlyFirst(delegations: seq<Delegation>, taken: set<string>, context: Context, e: PlanError, i: nat)
    requires ValidContext(context) && delegations != [] && DelegationError(delegations[0], taken, context).Some?
    requires RefusedAt(delegations, taken, context, e, i)
    ensures i == 0
  {
    hide Refuses, MayDelegate, DelegationError, AllAllowedBeside;
    OneAcceptedExactly(delegations[0], taken, context);
    if i > 0 {
      FirstIsAllowed(delegations[..i], taken, context);
      assert false;
    }
  }

  lemma FirstIsAllowed(delegations: seq<Delegation>, taken: set<string>, context: Context)
    requires delegations != [] && AllAllowedBeside(delegations, taken, context)
    ensures MayDelegate(delegations[0], context) && delegations[0].targetParticipantId !in taken
  {
    hide MayDelegate;
    assert delegations[0] in delegations;
  }

  lemma RefusedLater(delegations: seq<Delegation>, taken: set<string>, context: Context, e: PlanError, i: nat)
    requires delegations != [] && MayDelegate(delegations[0], context) && delegations[0].targetParticipantId !in taken
    ensures RefusedAt(delegations, taken, context, e, i + 1)
            <==> RefusedAt(delegations[1..], taken + {delegations[0].targetParticipantId}, context, e, i)
  {
    hide Refuses, MayDelegate, AllAllowedBeside;
    var d, rest := delegations[0], delegations[1..];
    if i < |rest| {
      assert delegations[..i + 1] == [d] + rest[..i];
      AllowedOneByOne(d, rest[..i], taken, context);
      assert TargetsOf([d] + rest[..i]) == {d.targetParticipantId} + TargetsOf(rest[..i]) by {
        assert forall x :: x in [d] + rest[..i] <==> x == d || x in rest[..i];
      }
      var later := TargetsOf(rest[..i]);
      assert taken + ({d.targetParticipantId} + later) == taken + {d.targetParticipantId} + later;
    }
  }

  /** The envelope is one the parser looks at: of a well-formed room, not too long, readable, and of version 1. */
  predicate IsLookedAt(input: seq<byte>, envelope: Option<RawPlan>, context: Context) {
    ValidContext(context) && |input| <= 16_000 && Decode(input).Some? && envelope.Some? && envelope.value.version == 1
  }

  predicate IsDelegation(raw: RawPlan) {
    raw.mode.Delegate? && !raw.directAnswer.OtherJson?
  }

  /** Each error of the parser, and exactly when it is reported. */
  lemma RefusedExactly(input: seq<byte>, envelope: Option<RawPlan>, context: Context)
    ensures var r := Parse(input, envelope, context);
            var good := ValidContext(context);
            var short := |input| <= 16_000;
            var text := Decode(input).Some?;
            && (r == Err(InvalidContext) <==> !good)
            && (r == Err(EnvelopeTooLarge) <==> good && !short)
            && (r == Err(InvalidUtf8) <==> good && short && !text)
            && (r == Err(InvalidEnvelope) <==> good && short && text && envelope.None?)
            && (r == Err(UnsupportedVersion) <==>
                  good && short && text && envelope.Some? && envelope.value.version != 1)
    ensures IsLookedAt(input, envelope, context) ==>
              var r, raw := Parse(input, envelope, context), envelope.value;
              var countable := raw.directAnswer.Null? && 1 <= |raw.delegations| <= 3;
              && (r == Err(InvalidDirectAnswer) <==>
                    raw.directAnswer.OtherJson? || (raw.mode.Answer? && !IsAnswer(raw)))
              && (r == Err(InvalidDelegationCount) <==> IsDelegation(raw) && !countable)
              && (IsDelegation(raw) && countable ==>
                    && (r.Ok? <==> AllAllowed(raw.delegations, context))
                    && forall e :: RefusedWith(raw.delegations, {}, context, e) ==> r == Err(e))
  {
    hide Decode, ValidContext, DelegationsError, AllAllowed, RefusedWith, Trim, ByteLength;
    if IsLookedAt(input, envelope, context) {
      var raw := envelope.value;
      AllowedExactly(raw.delegations, context);
      forall e
        ensures DelegationsError(raw.delegations, {}, context) == Some(e) <==>
                  RefusedWith(raw.delegations, {}, context, e)
      {
        FirstRefusalExactly(raw.delegations, {}, context, e);
      }
      forall e | DelegationsError(raw.delegations, {}, context) == Some(e)
        ensures e != InvalidDirectAnswer && e != InvalidDelegationCount && e != InvalidContext && e != EnvelopeTooLarge
        ensures e != InvalidUtf8 && e != InvalidEnvelope && e != UnsupportedVersion
      {
        RefusalsAreOfTargets(raw.delegations, context, e);
      }
    }
  }

  lemma RefusalsAreOfTargets(delegations: seq<Delegation>, context: Context, e: PlanError)
    requires RefusedWith(delegations, {}, context, e)
    ensures e != InvalidDirectAnswer && e != InvalidDelegationCount && e != InvalidContext && e != EnvelopeTooLarge
    ensures e != InvalidUtf8 && e != InvalidEnvelope && e != UnsupportedVersion
  {}

  /** An envelope that answers for itself: a text within the limit and nothing to delegate. */
  predicate IsAnswer(raw: RawPlan) {
    && raw.delegations == [] && raw.directAnswer.Text?
    && Trim(raw.directAnswer.value) != "" && ByteLength(raw.directAnswer.value) <= 100_000
  }
}
