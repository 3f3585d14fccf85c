/**
 The coordination contract of one investigation: the projection, the three
 response parsers and the evaluator of a fresh action.  The parsers and the
 evaluator describe the same protocol from two sides; `ChangedExact`,
 `RefusedExact` and `SuccessExact` show that they describe exactly the same one.
 */
module Coordination {
  import opened Wrappers

  datatype Action = ClaimSelf | ReleaseSelf | AssignParticipant | ReleaseParticipant

  datatype Refusal =
    | InvestigationArchived
    | Occupied
    | AlreadyCoordinator
    | NotCoordinator
    | TargetNotCoordinator
    | TargetNotEligible
    | ActorNotEligible
    | IdempotencyIntentMismatch

  datatype Identity = Identity(identityId: string, username: string)

  /** The recorded answer to "who coordinates this investigation?". */
  datatype Projection = Projection(
    investigationId: string,
    coordinator: Option<Identity>,
    revision: nat,
    updatedAt: Option<string>,
    updatedBy: Option<Identity>,
    archived: bool)

  datatype SuccessEnvelope = SuccessEnvelope(
    investigationId: string,
    action: Action,
    target: Option<string>,
    previousRevision: nat,
    previousCoordinator: Option<Identity>,
    applied: Projection)

  datatype ChangedEnvelope = ChangedEnvelope(
    investigationId: string,
    action: Action,
    target: Option<string>,
    current: Projection)

  datatype RefusedEnvelope = RefusedEnvelope(
    investigationId: string,
    action: Action,
    target: Option<string>,
    reason: Refusal,
    detail: string,
    current: Projection)

  const DETAIL_MAX_LENGTH: nat := 600
  const INSTANT_MAX_LENGTH: nat := 64

  /**
   The host's text library: which identifiers and usernames are exact safe wire
   text, how free text is normalised, and which text is an offset instant.
   Every result below holds for any such library.
   */
  datatype TextRules = TextRules(
    id: string -> bool,
    username: string -> bool,
    normalize: (string, nat) -> Option<string>,
    instant: string -> bool)

  // ----- parsers -------------------------------------------------------------

  function ParseId(t: TextRules, value: string, at: string): Result<string> {
    if t.id(value) then Ok(value) else Err(at)
  }

  function ParseIdentity(t: TextRules, raw: Option<Identity>, at: string): Result<Option<Identity>> {
    match raw
    case None => Ok(None)
    case Some(who) =>
      if t.id(who.identityId) && t.username(who.username) then Ok(raw) else Err(at)
  }

  function ParseInstantText(t: TextRules, raw: Option<string>, at: string): Result<Option<string>> {
    match raw
    case None => Ok(None)
    case Some(text) =>
      match t.normalize(text, INSTANT_MAX_LENGTH)
      case None => Err(at)
      case Some(normal) => Ok(Some(normal))
  }

  function ParseProjection(t: TextRules, raw: Projection): Result<Projection> {
    if raw.revision > MAX_SAFE_INTEGER then Err("revision")
    else
      var coordinator :- ParseIdentity(t, raw.coordinator, "coordinator");
      var updatedBy :- ParseIdentity(t, raw.updatedBy, "updatedBy");
      var updatedAt :- ParseInstantText(t, raw.updatedAt, "updatedAt");
      if raw.revision == 0 && (coordinator.Some? || updatedAt.Some? || updatedBy.Some?) then Err("revision")
      else if raw.revision != 0 && (updatedAt.None? || updatedBy.None?) then Err("revision")
      else if raw.revision != 0 && !t.instant(updatedAt.value) then Err("updatedAt")
      else
        var investigationId :- ParseId(t, raw.investigationId, "investigationId");
        Ok(Projection(investigationId, coordinator, raw.revision, updatedAt, updatedBy, raw.archived))
  }

  predicate RequiresTarget(action: Action) {
    action.AssignParticipant? || action.ReleaseParticipant?
  }

  function TargetForAction(t: TextRules, raw: Option<string>, action: Action): Result<Option<string>> {
    if raw.Some? && !t.id(raw.value) then Err("targetIdentityId")
    else if RequiresTarget(action) != raw.Some? then Err("targetIdentityId")
    else Ok(raw)
  }

  function HolderId(coordinator: Option<Identity>): Option<string> {
    match coordinator
    case None => None
    case Some(who) => Some(who.identityId)
  }

  predicate SameIdentity(left: Option<Identity>, right: Option<Identity>) {
    left.Some? && right.Some? && left.value.identityId == right.value.identityId
  }

  function ParseSuccess(t: TextRules, raw: SuccessEnvelope): Result<SuccessEnvelope> {
    if raw.previousRevision > MAX_SAFE_INTEGER then Err("previousRevision")
    else
      var investigationId :- ParseId(t, raw.investigationId, "investigationId");
      var target :- TargetForAction(t, raw.target, raw.action);
      var previous :- ParseIdentity(t, raw.previousCoordinator, "previousCoordinator");
      var applied :- ParseProjection(t, raw.applied);
      if applied.investigationId != investigationId then Err("applied.investigationId")
      else if raw.previousRevision == 0 && previous.Some? then Err("previousCoordinator")
      else if applied.revision != raw.previousRevision + 1 || raw.previousRevision + 1 > MAX_SAFE_INTEGER then
        Err("applied.revision")
      else if applied.archived then Err("applied.archived")
      else
        var _ :- CheckAppliedHolder(raw.action, target, previous, applied);
        Ok(SuccessEnvelope(investigationId, raw.action, target, raw.previousRevision, previous, applied))
  }

  function CheckAppliedHolder(
    action: Action, target: Option<string>, previous: Option<Identity>, applied: Projection): Result<()>
  {
    match action
    case ClaimSelf =>
      if previous.Some? || applied.coordinator.None? then Err("applied.coordinator")
      else if !SameIdentity(applied.coordinator, applied.updatedBy) then Err("applied.updatedBy")
      else Ok(())
    case ReleaseSelf =>
      if previous.None? || applied.coordinator.Some? then Err("applied.coordinator")
      else if !SameIdentity(previous, applied.updatedBy) then Err("applied.updatedBy")
      else Ok(())
    case AssignParticipant =>
      if applied.coordinator.None? || SameIdentity(previous, applied.coordinator) then Err("applied.coordinator")
      else if HolderId(applied.coordinator) != target then Err("applied.coordinator")
      else Ok(())
    case ReleaseParticipant =>
      if previous.None? || applied.coordinator.Some? then Err("applied.coordinator")
      else if HolderId(previous) != target then Err("previousCoordinator")
      else Ok(())
  }

  function ParseChanged(t: TextRules, raw: ChangedEnvelope): Result<ChangedEnvelope> {
    var investigationId :- ParseId(t, raw.investigationId, "investigationId");
    var target :- TargetForAction(t, raw.target, raw.action);
    var current :- ParseProjection(t, raw.current);
    var holder := HolderId(current.coordinator);
    if current.investigationId != investigationId then Err("current.investigationId")
    else if current.archived then Err("current.archived")
    else if raw.action.ClaimSelf? && holder.Some? then Err("current.coordinator")
    else if raw.action.ReleaseSelf? && holder.None? then Err("current.coordinator")
    else if raw.action.AssignParticipant? && holder == target then Err("current.coordinator")
    else if raw.action.ReleaseParticipant? && holder != target then Err("current.coordinator")
    else Ok(ChangedEnvelope(investigationId, raw.action, target, current))
  }

  /** REFUSAL_ACTIONS: the actions each refusal can answer. */
  predicate CanRefuse(reason: Refusal, action: Action) {
    match reason
    case InvestigationArchived => true
    case Occupied => action.ClaimSelf?
    case AlreadyCoordinator => action.ClaimSelf? || action.AssignParticipant?
    case NotCoordinator => action.ReleaseSelf?
    case TargetNotCoordinator => action.ReleaseParticipant?
    case TargetNotEligible => action.AssignParticipant?
    case ActorNotEligible => action.ClaimSelf?
    case IdempotencyIntentMismatch => true
  }

  function ParseRefused(t: TextRules, raw: RefusedEnvelope): Result<RefusedEnvelope> {
    var investigationId :- ParseId(t, raw.investigationId, "investigationId");
    var target :- TargetForAction(t, raw.target, raw.action);
    var current :- ParseProjection(t, raw.current);
    var holder := HolderId(current.coordinator);
    var reason := raw.reason;
    if current.investigationId != investigationId then Err("current.investigationId")
    else if !CanRefuse(reason, raw.action) then Err("reason")
    else if reason.InvestigationArchived? && !current.archived then Err("current.archived")
    else if !reason.InvestigationArchived? && !reason.IdempotencyIntentMismatch? && current.archived then
      Err("current.archived")
    else if (reason.Occupied? || reason.AlreadyCoordinator?) && holder.None? then Err("current.coordinator")
    else if raw.action.AssignParticipant? && reason.AlreadyCoordinator? && holder != target then
      Err("current.coordinator")
    else if reason.ActorNotEligible? && holder.Some? then Err("current.coordinator")
    else if raw.action.AssignParticipant? && reason.TargetNotEligible? && holder == target then
      Err("current.coordinator")
    else if raw.action.ReleaseParticipant? && reason.TargetNotCoordinator? && holder == target then
      Err("current.coordinator")
    else
      match t.normalize(raw.detail, DETAIL_MAX_LENGTH)
      case None => Err("detail")
      case Some(detail) => Ok(RefusedEnvelope(investigationId, raw.action, target, reason, detail, current))
  }

  // ----- evaluator -----------------------------------------------------------

  datatype Party = Party(identityId: string, eligible: bool)

  datatype Subject = Subject(
    archived: bool,
    revision: nat,
    coordinator: Option<Identity>,
    actor: Party,
    target: Option<Party>)

  datatype Verdict =
    | Allowed(previousRevision: nat, next: Option<string>)
    | Refused(reason: Refusal)
    | Changed(currentRevision: nat)

  /** One fresh action: archive, then holder, then eligibility, then the revision. */
  function Evaluate(action: Action, expectedRevision: nat, subject: Subject): Verdict {
    var holder := HolderId(subject.coordinator);
    if subject.archived then Refused(InvestigationArchived)
    else
      match action
      case ClaimSelf =>
        if holder == Some(subject.actor.identityId) then Refused(AlreadyCoordinator)
        else if holder.Some? then Refused(Occupied)
        else if !subject.actor.eligible then Refused(ActorNotEligible)
        else CompareAndSwap(expectedRevision, subject, Some(subject.actor.identityId))
      case AssignParticipant =>
        if subject.target.None? then Refused(TargetNotEligible)
        else if holder == Some(subject.target.value.identityId) then Refused(AlreadyCoordinator)
        else if !subject.target.value.eligible then Refused(TargetNotEligible)
        else CompareAndSwap(expectedRevision, subject, Some(subject.target.value.identityId))
      case ReleaseSelf =>
        if holder != Some(subject.actor.identityId) then Refused(NotCoordinator)
        else CompareAndSwap(expectedRevision, subject, None)
      case ReleaseParticipant =>
        if subject.target.None? || holder != Some(subject.target.value.identityId) then Refused(TargetNotCoordinator)
        else CompareAndSwap(expectedRevision, subject, None)
  }

  function CompareAndSwap(expectedRevision: nat, subject: Subject, next: Option<string>): Verdict {
    if expectedRevision != subject.revision then Changed(subject.revision)
    else Allowed(subject.revision, next)
  }

  /** The subject the server loads: the projection, the actor and the requested target. */
  function SubjectOf(p: Projection, actor: Party, target: Option<Party>): Subject {
    Subject(p.archived, p.revision, p.coordinator, actor, target)
  }

  function Load(target: Option<string>, eligible: bool): Option<Party> {
    match target
    case None => None
    case Some(id) => Some(Party(id, eligible))
  }

  // ----- the evaluator and the parsers agree ---------------------------------

  /** The checks on an envelope that do not concern the holder protocol. */
  predicate CommonParts(
    t: TextRules, investigationId: string, action: Action, target: Option<string>, current: Projection)
  {
    && t.id(investigationId)
    && current.investigationId == investigationId
    && TargetForAction(t, target, action).Ok?
    && ParseProjection(t, current).Ok?
  }

  /** RESPONSE_CONTEXT for a changed reply: what the caller compares with its own request. */
  predicate ChangedContext(e: ChangedEnvelope, actor: string, expectedRevision: nat) {
    && e.current.revision != expectedRevision
    && (e.action.ReleaseSelf? ==> HolderId(e.current.coordinator) == Some(actor))
  }

  predicate RefusedContext(e: RefusedEnvelope, actor: string) {
    && (e.action.ClaimSelf? && e.reason.AlreadyCoordinator? ==> HolderId(e.current.coordinator) == Some(actor))
    && (e.action.ClaimSelf? && e.reason.Occupied? ==> HolderId(e.current.coordinator) != Some(actor))
    && (e.action.ReleaseSelf? && e.reason.NotCoordinator? ==> HolderId(e.current.coordinator) != Some(actor))
  }

  predicate SuccessContext(e: SuccessEnvelope, actor: string) {
    && HolderId(e.applied.updatedBy) == Some(actor)
    && (e.action.ClaimSelf? ==> HolderId(e.applied.coordinator) == Some(actor))
    && (e.action.ReleaseSelf? ==> HolderId(e.previousCoordinator) == Some(actor))
  }

  ghost predicate SomeChanged(e: ChangedEnvelope, actor: string, expectedRevision: nat) {
    exists actorOk: bool, targetOk: bool ::
      Evaluate(e.action, expectedRevision, SubjectOf(e.current, Party(actor, actorOk), Load(e.target, targetOk)))
      == Changed(e.current.revision)
  }

  /**
   A changed reply is accepted in its context exactly when some loaded subject
   makes the evaluator answer "changed".
   */
  lemma ChangedExact(t: TextRules, e: ChangedEnvelope, actor: string, expectedRevision: nat)
    ensures ParseChanged(t, e).Ok? && ChangedContext(e, actor, expectedRevision)
            <==> CommonParts(t, e.investigationId, e.action, e.target, e.current)
                 && SomeChanged(e, actor, expectedRevision)
  {
    var best := Evaluate(e.action, expectedRevision, SubjectOf(e.current, Party(actor, true), Load(e.target, true)));
    if ParseChanged(t, e).Ok? && ChangedContext(e, actor, expectedRevision) {
      assert best == Changed(e.current.revision);
    }
  }

  ghost predicate SomeRefusal(e: RefusedEnvelope, actor: string, expectedRevision: nat) {
    exists actorOk: bool, targetOk: bool ::
      Evaluate(e.action, expectedRevision, SubjectOf(e.current, Party(actor, actorOk), Load(e.target, targetOk)))
      == Refused(e.reason)
  }

  /** The same for refusals; an intent mismatch is decided before the evaluator runs. */
  lemma RefusedExact(t: TextRules, e: RefusedEnvelope, actor: string, expectedRevision: nat)
    requires !e.reason.IdempotencyIntentMismatch?
    ensures ParseRefused(t, e).Ok? && RefusedContext(e, actor)
            <==> && CommonParts(t, e.investigationId, e.action, e.target, e.current)
                 && t.normalize(e.detail, 600).Some?
                 && SomeRefusal(e, actor, expectedRevision)
  {
    var worst := Evaluate(e.action, expectedRevision, SubjectOf(e.current, Party(actor, false), Load(e.target, false)));
    if ParseRefused(t, e).Ok? && RefusedContext(e, actor) {
      assert worst == Refused(e.reason);
    }
  }

  /** The projection an action was applied to, as a success reply records it. */
  function Before(e: SuccessEnvelope, actor: Party, target: Option<Party>): Subject {
    Subject(false, e.previousRevision, e.previousCoordinator, actor, target)
  }

  ghost predicate SomeSuccess(e: SuccessEnvelope, actor: string) {
    exists actorOk: bool, targetOk: bool ::
      Evaluate(e.action, e.previousRevision, Before(e, Party(actor, actorOk), Load(e.target, targetOk)))
      == Allowed(e.previousRevision, HolderId(e.applied.coordinator))
  }

  /**
   A success reply is accepted in its context exactly when the evaluator allows
   the action on the recorded previous state and the reply records its outcome.
   */
  lemma SuccessExact(t: TextRules, e: SuccessEnvelope, actor: string)
    ensures ParseSuccess(t, e).Ok? && SuccessContext(e, actor)
            <==> && CommonParts(t, e.investigationId, e.action, e.target, e.applied)
                 && (e.previousCoordinator.Some? ==>
                       && e.previousRevision > 0
                       && t.id(e.previousCoordinator.value.identityId) && t.username(e.previousCoordinator.value.username))
                 && SomeSuccess(e, actor)
                 && HolderId(e.applied.updatedBy) == Some(actor)
                 && e.applied.revision == e.previousRevision + 1
                 && !e.applied.archived
  {
    var best := Evaluate(e.action, e.previousRevision, Before(e, Party(actor, true), Load(e.target, true)));
    if ParseSuccess(t, e).Ok? && SuccessContext(e, actor) {
      assert best == Allowed(e.previousRevision, HolderId(e.applied.coordinator));
    }
  }

  /**
   When the requested participant could not be loaded, the evaluator still
   refuses, but that refusal is wire-valid only if the investigation is archived
   or is not held by the requested participant.
   */
  lemma UnloadedTargetRefusal(
    t: TextRules, current: Projection, action: Action, requested: string,
    actor: Party, expectedRevision: nat, detail: string)
    requires RequiresTarget(action)
    requires CommonParts(t, current.investigationId, action, Some(requested), current)
    requires t.normalize(detail, DETAIL_MAX_LENGTH).Some?
    ensures var verdict := Evaluate(action, expectedRevision, SubjectOf(current, actor, None));
            && verdict.Refused?
            && (ParseRefused(t, RefusedEnvelope(
                  current.investigationId, action, Some(requested), verdict.reason, detail, current)).Ok?
                <==> current.archived || HolderId(current.coordinator) != Some(requested))
  {
  }
}
