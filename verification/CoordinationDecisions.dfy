/**
 What the coordination service answers, read off the recorded row, the
 membership and the request alone: who gets the slot, who is refused and why,
 and when a request is stale.
 */
module CoordinationDecisions {
  import opened Wrappers
  import opened Coordination
  import opened CoordinationRuns

  // ----- requests the decisions are about ------------------------------------------------------

  /** A visible request whose key this actor has not used, on a sound record below the last safe revision. */
  ghost predicate IsFresh(h: Host, s: Server, e: Event) {
    && GoodHost(h) && Sound(h.text, s) && GoodEvent(h.text, e) && e.Act?
    && (e.isAdmin || e.actor.identityId in s.participants)
    && (e.actor.identityId, e.request.key) !in s.stored
    && s.row.revision < MAX_SAFE_INTEGER
  }

  /** The record as replies carry it: only the clock text is normalised. */
  ghost predicate IsCurrent(s: Server, p: Projection) {
    && p.investigationId == s.row.investigationId && p.coordinator == s.row.coordinator
    && p.revision == s.row.revision && p.updatedBy == s.row.updatedBy && p.archived == s.row.archived
  }

  /** The slot goes to `holder`, and nothing else but the bookkeeping changes. */
  ghost predicate Grants(h: Host, s: Server, e: Event, holder: Option<Identity>)
    requires e.Act?
  {
    var (after, reply) := Step(h, s, e);
    && reply.Applied?
    && reply.success.action == e.request.action && reply.success.target == e.request.target
    && reply.success.previousRevision == s.row.revision
    && reply.success.previousCoordinator == s.row.coordinator
    && reply.success.investigationId == s.row.investigationId
    && reply.success.applied == after.row.(updatedAt := h.text.normalize(e.now, 64))
    && after.row == s.row.(coordinator := holder, revision := s.row.revision + 1,
                           updatedAt := Some(e.now), updatedBy := Some(e.actor))
    && after.participants == s.participants
    && after.stored == s.stored[(e.actor.identityId, e.request.key) := reply.success]
  }

  ghost predicate Refuses(h: Host, s: Server, e: Event, reason: Refusal)
    requires e.Act?
  {
    var (after, reply) := Step(h, s, e);
    && after == s && reply.Denied?
    && reply.refused.reason == reason
    && reply.refused.action == e.request.action && reply.refused.target == e.request.target
    && Some(reply.refused.detail) == h.text.normalize(h.detail(reason), 600)
    && IsCurrent(s, reply.refused.current)
  }

  ghost predicate IsStale(h: Host, s: Server, e: Event)
    requires e.Act?
  {
    var (after, reply) := Step(h, s, e);
    && after == s && reply.Conflict?
    && reply.changed.action == e.request.action && reply.changed.target == e.request.target
    && IsCurrent(s, reply.changed.current)
  }

  /** An admissible request: granted at the recorded revision, stale at any other. */
  ghost predicate GrantsIfCurrent(h: Host, s: Server, e: Event, holder: Option<Identity>)
    requires e.Act?
  {
    if e.request.expectedRevision == s.row.revision then Grants(h, s, e, holder) else IsStale(h, s, e)
  }

  // ----- from verdicts to answers ----------------------------------------------------------------

  function Current(h: Host, s: Server): Projection
    requires ParseProjection(h.text, s.row).Ok?
  {
    ParseProjection(h.text, s.row).value
  }

  lemma FreshStep(h: Host, s: Server, e: Event)
    requires IsFresh(h, s, e)
    ensures Step(h, s, e) == Fresh(h, s, Current(h, s), e)
    ensures IsCurrent(s, Current(h, s))
    ensures StoreKey(e) !in s.stored
  {
    ProjectionKept(h.text, s.row);
  }

  lemma RefusedAnswer(h: Host, s: Server, e: Event, reason: Refusal)
    requires IsFresh(h, s, e) && VerdictOn(s, Current(h, s), e) == Refused(reason)
    ensures Refuses(h, s, e, reason)
  {
    FreshStep(h, s, e);
    DenyPasses(h, s, Current(h, s), e, reason);
    DenialCarries(h, s, Current(h, s), e, reason);
  }

  lemma DenialCarries(h: Host, s: Server, current: Projection, e: Event, reason: Refusal)
    requires GoodHost(h) && e.Act? && ParseProjection(h.text, s.row) == Ok(current)
    requires Deny(h, current, e, reason).Denied?
    ensures var refused := Deny(h, current, e, reason).refused;
            && refused.reason == reason && refused.action == e.request.action && refused.target == e.request.target
            && Some(refused.detail) == h.text.normalize(h.detail(reason), 600)
            && IsCurrent(s, refused.current)
  {
    ProjectionReparses(h.text, s.row);
    ProjectionKept(h.text, s.row);
  }

  lemma StaleAnswer(h: Host, s: Server, e: Event)
    requires IsFresh(h, s, e) && VerdictOn(s, Current(h, s), e).Changed?
    ensures IsStale(h, s, e)
  {
    FreshStep(h, s, e);
    FreshThrowsExactly(h, s, Current(h, s), e);
    ProjectionReparses(h.text, s.row);
    ProjectionKept(h.text, s.row);
  }

  lemma GrantedAnswer(h: Host, s: Server, e: Event, next: Option<string>)
    requires IsFresh(h, s, e) && VerdictOn(s, Current(h, s), e) == Allowed(s.row.revision, next)
    ensures Grants(h, s, e, Holder(s, e, next))
  {
    FreshStep(h, s, e);
    FreshThrowsExactly(h, s, Current(h, s), e);
    AllowedPasses(h, s, Current(h, s), e, next);
    SuccessKept(h.text, SuccessFor(s, e, next));
    ProjectionKept(h.text, RowAfter(s, e, next));
  }

  lemma CurrentAnswer(h: Host, s: Server, e: Event, next: Option<string>)
    requires IsFresh(h, s, e)
    requires VerdictOn(s, Current(h, s), e)
             == if e.request.expectedRevision == s.row.revision then Allowed(s.row.revision, next)
                else Changed(s.row.revision)
    ensures GrantsIfCurrent(h, s, e, Holder(s, e, next))
  {
    if e.request.expectedRevision == s.row.revision {
      GrantedAnswer(h, s, e, next);
    } else {
      StaleAnswer(h, s, e);
    }
  }

  // ----- the decisions -----------------------------------------------------------------------------

  /** Nothing is decided for an archived investigation. */
  lemma ArchivedDecision(h: Host, s: Server, e: Event)
    requires IsFresh(h, s, e) && s.row.archived
    ensures Refuses(h, s, e, InvestigationArchived)
  {
    ProjectionKept(h.text, s.row);
    RefusedAnswer(h, s, e, InvestigationArchived);
  }

  /** A vacant slot goes to a member who claims it, under the name the membership records. */
  lemma ClaimDecision(h: Host, s: Server, e: Event)
    requires IsFresh(h, s, e) && !s.row.archived && e.request.action.ClaimSelf?
    ensures var actor := e.actor.identityId;
            match s.row.coordinator
            case Some(who) => Refuses(h, s, e, if who.identityId == actor then AlreadyCoordinator else Occupied)
            case None =>
              if actor in s.participants then GrantsIfCurrent(h, s, e, Some(Identity(actor, s.participants[actor])))
              else Refuses(h, s, e, ActorNotEligible)
  {
    ProjectionKept(h.text, s.row);
    var actor := e.actor.identityId;
    match s.row.coordinator
    case Some(who) => RefusedAnswer(h, s, e, if who.identityId == actor then AlreadyCoordinator else Occupied);
    case None =>
      if actor in s.participants {
        CurrentAnswer(h, s, e, Some(actor));
      } else {
        RefusedAnswer(h, s, e, ActorNotEligible);
      }
  }

  /** The slot, vacant or held by another, goes to the member it is assigned to. */
  lemma AssignDecision(h: Host, s: Server, e: Event)
    requires IsFresh(h, s, e) && !s.row.archived && e.request.action.AssignParticipant?
    ensures e.request.target.Some?
    ensures var id := e.request.target.value;
            if s.row.coordinator.Some? && s.row.coordinator.value.identityId == id then
              Refuses(h, s, e, AlreadyCoordinator)
            else if id in s.participants then GrantsIfCurrent(h, s, e, Some(Identity(id, s.participants[id])))
            else Refuses(h, s, e, TargetNotEligible)
  {
    ProjectionKept(h.text, s.row);
    var id := e.request.target.value;
    if s.row.coordinator.Some? && s.row.coordinator.value.identityId == id {
      RefusedAnswer(h, s, e, AlreadyCoordinator);
    } else if id in s.participants {
      CurrentAnswer(h, s, e, Some(id));
    } else {
      RefusedAnswer(h, s, e, TargetNotEligible);
    }
  }

  /** The holder, member or not, may give the slot up. */
  lemma ReleaseSelfDecision(h: Host, s: Server, e: Event)
    requires IsFresh(h, s, e) && !s.row.archived && e.request.action.ReleaseSelf?
    ensures if s.row.coordinator.Some? && s.row.coordinator.value.identityId == e.actor.identityId then
              GrantsIfCurrent(h, s, e, None)
            else Refuses(h, s, e, NotCoordinator)
  {
    ProjectionKept(h.text, s.row);
    if s.row.coordinator.Some? && s.row.coordinator.value.identityId == e.actor.identityId {
      CurrentAnswer(h, s, e, None);
    } else {
      RefusedAnswer(h, s, e, NotCoordinator);
    }
  }

  /** A participant is released exactly when holding the slot, even after leaving the investigation. */
  lemma ReleaseOtherDecision(h: Host, s: Server, e: Event)
    requires IsFresh(h, s, e) && !s.row.archived && e.request.action.ReleaseParticipant?
    ensures e.request.target.Some?
    ensures if s.row.coordinator.Some? && s.row.coordinator.value.identityId == e.request.target.value then
              GrantsIfCurrent(h, s, e, None)
            else Refuses(h, s, e, TargetNotCoordinator)
  {
    ProjectionKept(h.text, s.row);
    if s.row.coordinator.Some? && s.row.coordinator.value.identityId == e.request.target.value {
      CurrentAnswer(h, s, e, None);
    } else {
      RefusedAnswer(h, s, e, TargetNotCoordinator);
    }
  }

  /** A used key: the same action and target replay, any other is refused, and neither changes anything. */
  lemma UsedKeyDecision(h: Host, s: Server, e: Event)
    requires GoodHost(h) && Sound(h.text, s) && GoodEvent(h.text, e) && e.Act?
    requires e.isAdmin || e.actor.identityId in s.participants
    requires (e.actor.identityId, e.request.key) in s.stored
    ensures var success := s.stored[(e.actor.identityId, e.request.key)];
            if success.action == e.request.action && success.target == e.request.target then
              Step(h, s, e) == (s, Replayed(success))
            else Refuses(h, s, e, IdempotencyIntentMismatch)
  {
    var current := Current(h, s);
    DenyPasses(h, s, current, e, IdempotencyIntentMismatch);
    DenialCarries(h, s, current, e, IdempotencyIntentMismatch);
  }

  /** The case is invisible to everyone who is neither administrator nor member. */
  lemma VisibilityDecision(h: Host, s: Server, e: Event)
    requires GoodHost(h) && Sound(h.text, s) && GoodEvent(h.text, e) && e.Act?
    ensures Step(h, s, e).1.NotFound? <==> !e.isAdmin && e.actor.identityId !in s.participants
    ensures Step(h, s, e).1.NotFound? ==> Step(h, s, e).0 == s
  {
    StepThrowsExactly(h, s, e);
  }

  /** Archiving and membership changes touch nothing else. */
  lemma Surroundings(h: Host, s: Server, archived: bool, participants: map<string, string>)
    ensures Step(h, s, SetArchived(archived)) == (s.(row := s.row.(archived := archived)), Quiet)
    ensures Step(h, s, SetParticipants(participants)) == (s.(participants := participants), Quiet)
  {
  }

  /** Every investigation starts sound: vacant, at revision zero, with nothing stored. */
  lemma StartsSound(h: Host, investigationId: string, participants: map<string, string>)
    requires h.text.id(investigationId) && GoodMembers(h.text, participants)
    ensures Sound(h.text, Init(investigationId, participants))
    ensures var s := Init(investigationId, participants);
            s.row == Projection(investigationId, None, 0, None, None, false) && s.stored == map[]
  {
  }

  // ----- what is readable ----------------------------------------------------------------------------

  /**
   A projection is readable exactly when its revision is a safe integer, its
   identities are exact wire text, and its history fields are all absent at
   revision zero and present with an offset instant after it.
   */
  lemma ProjectionExact(t: TextRules, p: Projection)
    ensures ParseProjection(t, p).Ok?
       <==> && p.revision <= MAX_SAFE_INTEGER && t.id(p.investigationId)
            && (p.coordinator.Some? ==> t.id(p.coordinator.value.identityId) && t.username(p.coordinator.value.username))
            && (p.revision == 0 ==> p.coordinator.None? && p.updatedAt.None? && p.updatedBy.None?)
            && (p.revision > 0 ==>
                  && p.updatedBy.Some?
                  && t.id(p.updatedBy.value.identityId) && t.username(p.updatedBy.value.username)
                  && p.updatedAt.Some? && t.normalize(p.updatedAt.value, 64).Some?
                  && t.instant(t.normalize(p.updatedAt.value, 64).value))
    ensures ParseProjection(t, p).Ok? ==>
      ParseProjection(t, p).value
      == p.(updatedAt := if p.updatedAt.None? then None else t.normalize(p.updatedAt.value, 64))
  {
  }

  /** A target is named exactly by the two actions on a participant, in exact wire text. */
  lemma TargetExact(t: TextRules, target: Option<string>, action: Action)
    ensures TargetForAction(t, target, action).Ok?
       <==> && (target.Some? <==> action == AssignParticipant || action == ReleaseParticipant)
            && (target.Some? ==> t.id(target.value))
  {
  }
}
