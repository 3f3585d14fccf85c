/**
 Whole runs of the coordination service: any number of actors act on one
 investigation while its membership changes and it is archived and restored.
 A request first replays a durable success stored under (actor, idempotency
 key), and only otherwise evaluates the action; only successes are stored.
 */
module CoordinationRuns {
  import opened Wrappers
  import opened Coordination

  datatype Request = Request(action: Action, target: Option<string>, expectedRevision: nat, key: string)

  datatype Event =
    | Act(actor: Identity, isAdmin: bool, request: Request, now: string)
    | SetArchived(archived: bool)
    | SetParticipants(participants: map<string, string>)

  /** `row` is the recorded projection; `participants` maps member ids to usernames. */
  datatype Server = Server(
    row: Projection, participants: map<string, string>, stored: map<(string, string), SuccessEnvelope>)

  /** `Thrown` is a server error: one of the service's own checks failed and nothing was written. */
  datatype Reply =
    | Applied(success: SuccessEnvelope)
    | Replayed(success: SuccessEnvelope)
    | Conflict(changed: ChangedEnvelope)
    | Denied(refused: RefusedEnvelope)
    | NotFound
    | Thrown
    | Quiet

  /** The host's text library and the fixed refusal texts. */
  datatype Host = Host(text: TextRules, detail: Refusal -> string)

  function Init(investigationId: string, participants: map<string, string>): Server {
    Server(Projection(investigationId, None, 0, None, None, false), participants, map[])
  }

  function StoreKey(e: Event): (string, string)
    requires e.Act?
  {
    (e.actor.identityId, e.request.key)
  }

  predicate SameIntent(e: Event, success: SuccessEnvelope)
    requires e.Act?
  {
    success.action == e.request.action && success.target == e.request.target
  }

  predicate MaySee(s: Server, e: Event)
    requires e.Act?
  {
    e.isAdmin || e.actor.identityId in s.participants
  }

  /** Members are loaded as eligible; a holder who left is loaded as ineligible; nobody else is loaded. */
  function LoadTarget(s: Server, current: Projection, target: Option<string>): Option<Party> {
    match target
    case None => None
    case Some(id) =>
      if id in s.participants then Some(Party(id, true))
      else if HolderId(current.coordinator) == target then Some(Party(id, false))
      else None
  }

  function VerdictOn(s: Server, current: Projection, e: Event): Verdict
    requires e.Act?
  {
    Evaluate(e.request.action, e.request.expectedRevision,
             SubjectOf(current, Party(e.actor.identityId, e.actor.identityId in s.participants),
                       LoadTarget(s, current, e.request.target)))
  }

  /** The identity that takes the slot; usernames come from the membership record. */
  function Holder(s: Server, e: Event, next: Option<string>): Option<Identity>
    requires e.Act?
  {
    match next
    case None => None
    case Some(id) =>
      if id in s.participants then Some(Identity(id, s.participants[id]))
      else if id == e.actor.identityId then Some(e.actor)
      else None
  }

  function RowAfter(s: Server, e: Event, next: Option<string>): Projection
    requires e.Act?
  {
    s.row.(coordinator := Holder(s, e, next), revision := s.row.revision + 1,
           updatedAt := Some(e.now), updatedBy := Some(e.actor))
  }

  function SuccessFor(s: Server, e: Event, next: Option<string>): SuccessEnvelope
    requires e.Act?
  {
    SuccessEnvelope(s.row.investigationId, e.request.action, e.request.target,
                    s.row.revision, s.row.coordinator, RowAfter(s, e, next))
  }

  function Deny(h: Host, current: Projection, e: Event, reason: Refusal): Reply
    requires e.Act?
  {
    match ParseRefused(h.text, RefusedEnvelope(
      current.investigationId, e.request.action, e.request.target, reason, h.detail(reason), current))
    case Ok(refused) => Denied(refused)
    case Err(_) => Thrown
  }

  function Replay(h: Host, e: Event, success: SuccessEnvelope): Reply
    requires e.Act?
  {
    if ParseSuccess(h.text, success).Ok? && SuccessContext(success, e.actor.identityId) then Replayed(success)
    else Thrown
  }

  /** coordinateInvestigation past the replay check: evaluate, build, check, write. */
  function Fresh(h: Host, s: Server, current: Projection, e: Event): (Server, Reply)
    requires e.Act?
  {
    match VerdictOn(s, current, e)
    case Refused(reason) => (s, Deny(h, current, e, reason))
    case Changed(_) =>
      (match ParseChanged(h.text, ChangedEnvelope(current.investigationId, e.request.action, e.request.target, current))
       case Ok(changed) => (s, Conflict(changed))
       case Err(_) => (s, Thrown))
    case Allowed(_, next) =>
      match ParseSuccess(h.text, SuccessFor(s, e, next))
      case Err(_) => (s, Thrown)
      case Ok(success) =>
        if !SuccessContext(success, e.actor.identityId) then (s, Thrown)
        else (Server(RowAfter(s, e, next), s.participants, s.stored[StoreKey(e) := success]), Applied(success))
  }

  function Step(h: Host, s: Server, e: Event): (Server, Reply) {
    match e
    case SetArchived(archived) => (s.(row := s.row.(archived := archived)), Quiet)
    case SetParticipants(participants) => (s.(participants := participants), Quiet)
    case Act(_, _, _, _) =>
      if !MaySee(s, e) then (s, NotFound)
      else if StoreKey(e) in s.stored && SameIntent(e, s.stored[StoreKey(e)]) then
        (s, Replay(h, e, s.stored[StoreKey(e)]))
      else
        match ParseProjection(h.text, s.row)
        case Err(_) => (s, Thrown)
        case Ok(current) =>
          if StoreKey(e) in s.stored then (s, Deny(h, current, e, IdempotencyIntentMismatch))
          else Fresh(h, s, current, e)
  }

  function Run(h: Host, s: Server, es: seq<Event>): (r: (Server, seq<Reply>))
    ensures |r.1| == |es|
  {
    if es == [] then (s, [])
    else
      var n := |es| - 1;
      var before := Run(h, s, es[..n]);
      var last := Step(h, before.0, es[n]);
      (last.0, before.1 + [last.1])
  }

  function FreshSuccess(r: Reply): seq<SuccessEnvelope> {
    if r.Applied? then [r.success] else []
  }

  function AppliedLog(rs: seq<Reply>): (log: seq<SuccessEnvelope>)
  {
    if rs == [] then []
    else
      var n := |rs| - 1;
      AppliedLog(rs[..n]) + FreshSuccess(rs[n])
  }

  lemma RunSnoc(h: Host, s: Server, es: seq<Event>, i: nat)
    requires i < |es|
    ensures var before, last := Run(h, s, es[..i]), Step(h, Run(h, s, es[..i]).0, es[i]);
            Run(h, s, es[..i + 1]) == (last.0, before.1 + [last.1])
  {
    assert es[..i + 1][..i] == es[..i];
  }

  lemma {:induction false} ReplyKept(h: Host, s: Server, es: seq<Event>, i: nat, j: nat)
    requires i < j <= |es|
    ensures Run(h, s, es[..j]).1[i] == Run(h, s, es[..i + 1]).1[i]
    decreases j
  {
    if i + 1 < j {
      RunSnoc(h, s, es, j - 1);
      ReplyKept(h, s, es, i, j - 1);
    }
  }

  /** The reply at position i is the step from the state reached by the first i events. */
  lemma RunAt(h: Host, s: Server, es: seq<Event>, i: nat)
    requires i < |es|
    ensures Run(h, s, es).1[i] == Step(h, Run(h, s, es[..i]).0, es[i]).1
    ensures Run(h, s, es[..i + 1]).0 == Step(h, Run(h, s, es[..i]).0, es[i]).0
  {
    assert es[..|es|] == es;
    ReplyKept(h, s, es, i, |es|);
    RunSnoc(h, s, es, i);
  }

  // ----- what one step does to the record --------------------------------------------------

  /** A reply moves the record exactly along its own success, if it is a fresh one. */
  predicate Moves(before: Server, e: Event, r: Reply, after: Server) {
    && after.row.investigationId == before.row.investigationId
    && if r.Applied? then
         && e.Act? && StoreKey(e) !in before.stored
         && e.request.expectedRevision == before.row.revision
         && r.success.previousRevision == before.row.revision
         && r.success.previousCoordinator == before.row.coordinator
         && r.success.applied.revision == after.row.revision == before.row.revision + 1
         && r.success.applied.coordinator == after.row.coordinator
         && after.stored == before.stored[StoreKey(e) := r.success]
       else
         && after.row.revision == before.row.revision
         && after.row.coordinator == before.row.coordinator
         && after.stored == before.stored
         && (e.Act? ==> after == before)
  }

  /** Parsing keeps every field but the normalised clock text. */
  lemma ProjectionKept(t: TextRules, p: Projection)
    requires ParseProjection(t, p).Ok?
    ensures ParseProjection(t, p).value == p.(updatedAt := ParseProjection(t, p).value.updatedAt)
  {
  }

  lemma SuccessKept(t: TextRules, e: SuccessEnvelope)
    requires ParseSuccess(t, e).Ok?
    ensures ParseSuccess(t, e).value == e.(applied := ParseProjection(t, e.applied).value)
  {
  }

  lemma FreshMoves(h: Host, s: Server, current: Projection, e: Event)
    requires e.Act? && ParseProjection(h.text, s.row) == Ok(current) && StoreKey(e) !in s.stored
    ensures Moves(s, e, Fresh(h, s, current, e).1, Fresh(h, s, current, e).0)
  {
    ProjectionKept(h.text, s.row);
    var verdict := VerdictOn(s, current, e);
    if verdict.Allowed? && ParseSuccess(h.text, SuccessFor(s, e, verdict.next)).Ok? {
      SuccessKept(h.text, SuccessFor(s, e, verdict.next));
      ProjectionKept(h.text, RowAfter(s, e, verdict.next));
    }
  }

  lemma StepMoves(h: Host, s: Server, e: Event)
    ensures Moves(s, e, Step(h, s, e).1, Step(h, s, e).0)
  {
    if e.Act? && ParseProjection(h.text, s.row).Ok? && StoreKey(e) !in s.stored {
      FreshMoves(h, s, ParseProjection(h.text, s.row).value, e);
    }
  }

  // ----- the revision counts applied actions, and successes form one chain ------------------

  /** Successes number the revisions from zero, and each starts where the last ended. */
  predicate Chained(log: seq<SuccessEnvelope>) {
    forall i :: 0 <= i < |log| ==> Linked(log, i)
  }

  predicate Linked(log: seq<SuccessEnvelope>, i: int)
    requires 0 <= i < |log|
  {
    && log[i].previousRevision == i
    && log[i].applied.revision == i + 1
    && log[i].previousCoordinator == (if i == 0 then None else log[i - 1].applied.coordinator)
  }

  /** The record is what the log of successes left behind. */
  predicate LeftBy(p: Projection, investigationId: string, log: seq<SuccessEnvelope>) {
    && p.revision == |log|
    && p.coordinator == (if log == [] then None else log[|log| - 1].applied.coordinator)
    && p.investigationId == investigationId
    && Chained(log)
  }

  lemma MoveKeepsChain(
    before: Server, e: Event, r: Reply, after: Server, investigationId: string, log: seq<SuccessEnvelope>)
    requires LeftBy(before.row, investigationId, log) && Moves(before, e, r, after)
    ensures LeftBy(after.row, investigationId, log + FreshSuccess(r))
  {
    var longer := log + FreshSuccess(r);
    forall i | 0 <= i < |longer| ensures Linked(longer, i) {
      assert i < |log| ==> Linked(log, i);
    }
  }

  lemma AppliedLogSnoc(rs: seq<Reply>, r: Reply)
    ensures AppliedLog(rs + [r]) == AppliedLog(rs) + FreshSuccess(r)
  {
    assert (rs + [r])[..|rs|] == rs;
  }

  /**
   In every run the revision counts the applied actions, and each success
   starts from the revision and coordinator the preceding success left.
   */
  lemma {:induction false} RunIsChained(
    h: Host, investigationId: string, participants: map<string, string>, es: seq<Event>)
    ensures var (s, rs) := Run(h, Init(investigationId, participants), es);
            LeftBy(s.row, investigationId, AppliedLog(rs))
  {
    if es != [] {
      var n := |es| - 1;
      RunIsChained(h, investigationId, participants, es[..n]);
      var (s, rs) := Run(h, Init(investigationId, participants), es[..n]);
      var (s', r) := Step(h, s, es[n]);
      StepMoves(h, s, es[n]);
      MoveKeepsChain(s, es[n], r, s', investigationId, AppliedLog(rs));
      AppliedLogSnoc(rs, r);
    }
  }

  // ----- at most one fresh success per expected revision --------------------------------------

  /** What a server never forgets: its revision and its stored successes. */
  predicate Remembers(before: Server, after: Server) {
    && before.row.revision <= after.row.revision
    && forall k :: k in before.stored ==> k in after.stored && after.stored[k] == before.stored[k]
  }

  lemma MoveRemembers(before: Server, e: Event, r: Reply, after: Server)
    requires Moves(before, e, r, after)
    ensures Remembers(before, after)
  {
  }

  lemma {:induction false} RunRemembers(h: Host, s: Server, es: seq<Event>, i: nat, j: nat)
    requires i <= j <= |es|
    ensures Remembers(Run(h, s, es[..i]).0, Run(h, s, es[..j]).0)
    decreases j
  {
    if i < j {
      var before := Run(h, s, es[..j - 1]).0;
      RunRemembers(h, s, es, i, j - 1);
      RunAt(h, s, es, j - 1);
      StepMoves(h, before, es[j - 1]);
      MoveRemembers(before, es[j - 1], Step(h, before, es[j - 1]).1, Step(h, before, es[j - 1]).0);
    }
  }

  /** Fresh successes carry strictly increasing expected revisions. */
  lemma {:induction false} FreshRevisionsIncrease(h: Host, s: Server, es: seq<Event>, i: nat, j: nat)
    requires i < j < |es|
    requires Run(h, s, es).1[i].Applied? && Run(h, s, es).1[j].Applied?
    ensures es[i].Act? && es[j].Act?
    ensures es[i].request.expectedRevision < es[j].request.expectedRevision
  {
    RunAt(h, s, es, i);
    RunAt(h, s, es, j);
    StepMoves(h, Run(h, s, es[..i]).0, es[i]);
    StepMoves(h, Run(h, s, es[..j]).0, es[j]);
    RunRemembers(h, s, es, i + 1, j);
  }

  // ----- durable replay ------------------------------------------------------------------------

  /** A normaliser that leaves its own output alone. */
  ghost predicate Idempotent(t: TextRules) {
    forall text, n :: t.normalize(text, n).Some? ==>
      t.normalize(t.normalize(text, n).value, n) == t.normalize(text, n)
  }

  lemma ProjectionReparses(t: TextRules, p: Projection)
    requires Idempotent(t) && ParseProjection(t, p).Ok?
    ensures ParseProjection(t, ParseProjection(t, p).value) == ParseProjection(t, p)
  {
  }

  lemma SuccessReparses(t: TextRules, e: SuccessEnvelope)
    requires Idempotent(t) && ParseSuccess(t, e).Ok?
    ensures ParseSuccess(t, ParseSuccess(t, e).value) == ParseSuccess(t, e)
  {
    ProjectionReparses(t, e.applied);
  }

  /** A success that answered a request is stored under its key and passes the replay checks. */
  predicate Answered(t: TextRules, s: Server, e: Event, success: SuccessEnvelope) {
    && e.Act? && StoreKey(e) in s.stored && s.stored[StoreKey(e)] == success
    && ParseSuccess(t, success).Ok? && SuccessContext(success, e.actor.identityId)
  }

  lemma StepAnswers(h: Host, s: Server, e: Event)
    requires Idempotent(h.text)
    ensures var (s', r) := Step(h, s, e);
            r.Applied? || r.Replayed? ==> Answered(h.text, s', e, r.success)
  {
    if e.Act? && ParseProjection(h.text, s.row).Ok? && StoreKey(e) !in s.stored {
      var verdict := VerdictOn(s, ParseProjection(h.text, s.row).value, e);
      if verdict.Allowed? && ParseSuccess(h.text, SuccessFor(s, e, verdict.next)).Ok? {
        SuccessReparses(h.text, SuccessFor(s, e, verdict.next));
      }
    }
  }

  lemma StepReplays(h: Host, s: Server, e: Event, success: SuccessEnvelope)
    requires Answered(h.text, s, e, success)
    ensures Step(h, s, e).0 == s
    ensures MaySee(s, e) && SameIntent(e, success) ==> Step(h, s, e).1 == Replayed(success)
    ensures MaySee(s, e) && !SameIntent(e, success) ==> !Step(h, s, e).1.Applied? && !Step(h, s, e).1.Replayed?
    ensures !MaySee(s, e) ==> Step(h, s, e).1 == NotFound
  {
  }

  /**
   Once a request was answered by a success, fresh or replayed, every later
   request of the same actor with the same key changes nothing: with the same
   intent it gets that very success, whatever happened in between (archiving
   included), as long as the actor may still see the case.
   */
  lemma {:induction false} ReplayReturnsOriginal(h: Host, s: Server, es: seq<Event>, i: nat, j: nat)
    requires Idempotent(h.text)
    requires i < j < |es| && es[i].Act? && es[j].Act?
    requires Run(h, s, es).1[i].Applied? || Run(h, s, es).1[i].Replayed?
    requires StoreKey(es[i]) == StoreKey(es[j])
    ensures Run(h, s, es[..j + 1]).0 == Run(h, s, es[..j]).0
    ensures var now, success := Run(h, s, es[..j]).0, Run(h, s, es).1[i].success;
            Run(h, s, es).1[j] == Replayed(success) <==> MaySee(now, es[j]) && SameIntent(es[j], success)
    ensures !Run(h, s, es).1[j].Applied?
  {
    var success := Run(h, s, es).1[i].success;
    RunAt(h, s, es, i);
    RunAt(h, s, es, j);
    StepAnswers(h, Run(h, s, es[..i]).0, es[i]);
    RunRemembers(h, s, es, i + 1, j);
    StepReplays(h, Run(h, s, es[..j]).0, es[j], success);
  }

  // ----- the service's own checks ------------------------------------------------------------------

  ghost predicate GoodIdentity(t: TextRules, who: Identity) {
    t.id(who.identityId) && t.username(who.username)
  }

  ghost predicate GoodHost(h: Host) {
    Idempotent(h.text) && forall reason :: h.text.normalize(h.detail(reason), DETAIL_MAX_LENGTH).Some?
  }

  ghost predicate GoodMembers(t: TextRules, participants: map<string, string>) {
    forall id :: id in participants ==> GoodIdentity(t, Identity(id, participants[id]))
  }

  ghost predicate GoodEvent(t: TextRules, e: Event) {
    match e
    case SetArchived(_) => true
    case SetParticipants(participants) => GoodMembers(t, participants)
    case Act(actor, _, request, now) =>
      && GoodIdentity(t, actor)
      && TargetForAction(t, request.target, request.action).Ok?
      && t.normalize(now, INSTANT_MAX_LENGTH).Some?
      && t.instant(t.normalize(now, INSTANT_MAX_LENGTH).value)
  }

  ghost predicate Sound(t: TextRules, s: Server) {
    && ParseProjection(t, s.row).Ok?
    && GoodMembers(t, s.participants)
    && (forall k :: k in s.stored ==> ParseSuccess(t, s.stored[k]).Ok? && SuccessContext(s.stored[k], k.0))
  }

  lemma DenyPasses(h: Host, s: Server, current: Projection, e: Event, reason: Refusal)
    requires GoodHost(h) && Sound(h.text, s) && GoodEvent(h.text, e) && e.Act?
    requires ParseProjection(h.text, s.row) == Ok(current)
    requires reason.IdempotencyIntentMismatch? || VerdictOn(s, current, e) == Refused(reason)
    ensures Deny(h, current, e, reason).Denied?
    ensures !reason.IdempotencyIntentMismatch? ==>
      RefusedContext(Deny(h, current, e, reason).refused, e.actor.identityId)
  {
    ProjectionReparses(h.text, s.row);
    ProjectionKept(h.text, current);
  }

  lemma AllowedPasses(h: Host, s: Server, current: Projection, e: Event, next: Option<string>)
    requires Sound(h.text, s) && GoodEvent(h.text, e) && e.Act?
    requires ParseProjection(h.text, s.row) == Ok(current)
    requires VerdictOn(s, current, e) == Allowed(current.revision, next)
    ensures ParseSuccess(h.text, SuccessFor(s, e, next)).Ok? <==> s.row.revision < MAX_SAFE_INTEGER
    ensures SuccessContext(SuccessFor(s, e, next), e.actor.identityId)
  {
    ProjectionKept(h.text, s.row);
    assert ParseIdentity(h.text, Holder(s, e, next), "coordinator").Ok?;
    assert HolderId(Holder(s, e, next)) == next;
  }

  /** The caller's context checks on the reply to its own fresh request. */
  predicate InContext(e: Event, r: Reply)
    requires e.Act?
  {
    match r
    case Applied(success) => SuccessContext(success, e.actor.identityId)
    case Conflict(changed) => ChangedContext(changed, e.actor.identityId, e.request.expectedRevision)
    case Denied(refused) => RefusedContext(refused, e.actor.identityId)
    case _ => true
  }

  /** Whether a request would be freshly applied if the service's own checks let it. */
  predicate WouldApply(h: Host, s: Server, e: Event) {
    && e.Act? && MaySee(s, e) && StoreKey(e) !in s.stored
    && ParseProjection(h.text, s.row).Ok?
    && VerdictOn(s, ParseProjection(h.text, s.row).value, e).Allowed?
  }

  /**
   The service's own checks fail in exactly one situation: applying an action at
   the last safe revision.  Otherwise every reply passes its own parser.
   */
  lemma StepThrowsExactly(h: Host, s: Server, e: Event)
    requires GoodHost(h) && Sound(h.text, s) && GoodEvent(h.text, e)
    ensures Step(h, s, e).1.Thrown? <==> WouldApply(h, s, e) && s.row.revision == MAX_SAFE_INTEGER
    ensures Sound(h.text, Step(h, s, e).0)
  {
    match e
    case SetArchived(_) =>
    case SetParticipants(_) =>
    case Act(_, _, _, _) =>
      var current := ParseProjection(h.text, s.row).value;
      if MaySee(s, e) {
        if StoreKey(e) !in s.stored {
          FreshThrowsExactly(h, s, current, e);
        } else if !SameIntent(e, s.stored[StoreKey(e)]) {
          DenyPasses(h, s, current, e, IdempotencyIntentMismatch);
        }
      }
  }

  /** A fresh request fails its checks only there, and its reply fits its caller. */
  lemma FreshThrowsExactly(h: Host, s: Server, current: Projection, e: Event)
    requires GoodHost(h) && Sound(h.text, s) && GoodEvent(h.text, e) && e.Act?
    requires ParseProjection(h.text, s.row) == Ok(current) && StoreKey(e) !in s.stored
    ensures Fresh(h, s, current, e).1.Thrown?
            <==> VerdictOn(s, current, e).Allowed? && s.row.revision == MAX_SAFE_INTEGER
    ensures Sound(h.text, Fresh(h, s, current, e).0)
    ensures InContext(e, Fresh(h, s, current, e).1)
  {
    match VerdictOn(s, current, e)
    case Refused(reason) => DenyPasses(h, s, current, e, reason);
    case Changed(_) =>
      ProjectionReparses(h.text, s.row);
      ProjectionKept(h.text, current);
    case Allowed(_, next) =>
      AllowedPasses(h, s, current, e, next);
      if s.row.revision < MAX_SAFE_INTEGER {
        AppliedIsSound(h, s, e, next);
      }
  }

  lemma AppliedIsSound(h: Host, s: Server, e: Event, next: Option<string>)
    requires GoodHost(h) && Sound(h.text, s) && e.Act?
    requires ParseSuccess(h.text, SuccessFor(s, e, next)).Ok?
    requires SuccessContext(SuccessFor(s, e, next), e.actor.identityId)
    ensures var success := ParseSuccess(h.text, SuccessFor(s, e, next)).value;
            && SuccessContext(success, e.actor.identityId)
            && Sound(h.text, Server(RowAfter(s, e, next), s.participants, s.stored[StoreKey(e) := success]))
  {
    SuccessKept(h.text, SuccessFor(s, e, next));
    ProjectionKept(h.text, RowAfter(s, e, next));
    SuccessReparses(h.text, SuccessFor(s, e, next));
  }

  lemma {:induction false} RunSound(h: Host, s: Server, es: seq<Event>)
    requires GoodHost(h) && Sound(h.text, s)
    requires forall i :: 0 <= i < |es| ==> GoodEvent(h.text, es[i])
    ensures Sound(h.text, Run(h, s, es).0)
  {
    if es != [] {
      var n := |es| - 1;
      RunSound(h, s, es[..n]);
      StepThrowsExactly(h, Run(h, s, es[..n]).0, es[n]);
    }
  }

  /** A run of well-formed events that stays below the last safe revision never throws. */
  lemma {:induction false} RunNeverThrows(h: Host, s: Server, es: seq<Event>, i: nat)
    requires GoodHost(h) && Sound(h.text, s)
    requires forall k :: 0 <= k < |es| ==> GoodEvent(h.text, es[k])
    requires i < |es| && Run(h, s, es).0.row.revision < MAX_SAFE_INTEGER
    ensures !Run(h, s, es).1[i].Thrown?
  {
    assert es[..|es|] == es;
    RunAt(h, s, es, i);
    RunRemembers(h, s, es, i, |es|);
    RunSound(h, s, es[..i]);
    StepThrowsExactly(h, Run(h, s, es[..i]).0, es[i]);
  }
}
