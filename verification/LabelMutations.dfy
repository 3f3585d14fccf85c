/**
 Label mutations as the service applies them: one request adds or removes one
 label on a set of artifacts in one privacy lane, under the case lock.
 */
module LabelMutations {
  import opened Wrappers
  import opened Ordering
  import opened EvidenceLabels

  const MAX_EVENTS_PER_CASE: nat := 25_000

  datatype Mutation = Mutation(artifactIds: seq<string>, name: string, operation: Operation, privacy: Privacy)

  datatype Outcome = NotFound | AlreadyDesired | Applied(row: Row)

  /** `found` are the artifacts the actor may label, `open` the share-safe ones of the case. */
  datatype Scope = Scope(found: set<string>, open: set<string>)

  /** A parsed request names each artifact once. */
  ghost predicate WellFormed(m: Mutation) {
    Distinct(m.artifactIds)
  }

  // ----- one artifact -------------------------------------------------------------------------

  function MaxSequence(history: seq<Row>, artifactId: string, lane: Privacy): (n: nat)
    ensures forall row :: row in history && row.event.Some? && row.artifactId == artifactId && row.privacy == lane ==>
      row.event.value.sequence <= n
  {
    if history == [] then 0
    else
      var n := MaxSequence(history[1..], artifactId, lane);
      var row := history[0];
      if row.event.Some? && row.artifactId == artifactId && row.privacy == lane && row.event.value.sequence > n then
        row.event.value.sequence
      else n
  }

  function EventFor(history: seq<Row>, m: Mutation, artifactId: string): (row: Row)
    ensures row.event.Some? && row.artifactId == artifactId && row.privacy == m.privacy
  {
    Row(artifactId, m.privacy,
        Some(LabelEvent(m.name, m.operation, 1 + MaxSequence(history, artifactId, m.privacy))))
  }

  /** What the request does to one artifact, judged by the history it found. */
  ghost function OutcomeFor(history: seq<Row>, m: Mutation, scope: Scope, artifactId: string): Outcome {
    if artifactId !in scope.found then NotFound
    else if (LabelState(artifactId, m.name) in Projected(InLane(history, m.privacy))) == m.operation.Add? then AlreadyDesired
    else Applied(EventFor(history, m, artifactId))
  }

  // ----- the whole request ----------------------------------------------------------------------

  ghost function Outcomes(history: seq<Row>, m: Mutation, scope: Scope, ids: seq<string>): (r: seq<Outcome>)
    ensures |r| == |ids| && forall i :: 0 <= i < |ids| ==> r[i] == OutcomeFor(history, m, scope, ids[i])
  {
    seq(|ids|, i requires 0 <= i < |ids| => OutcomeFor(history, m, scope, ids[i]))
  }

  function Inserted(outcome: Outcome): seq<Row> {
    if outcome.Applied? then [outcome.row] else []
  }

  /** The rows written by these outcomes, in order. */
  function RowsOf(outcomes: seq<Outcome>): seq<Row> {
    if outcomes == [] then []
    else
      var n := |outcomes| - 1;
      RowsOf(outcomes[..n]) + Inserted(outcomes[n])
  }

  lemma RowsOfSnoc(outcomes: seq<Outcome>, outcome: Outcome)
    ensures RowsOf(outcomes + [outcome]) == RowsOf(outcomes) + Inserted(outcome)
  {
    assert (outcomes + [outcome])[..|outcomes|] == outcomes;
  }

  /** The rows written for the given artifacts. */
  ghost function NewRows(history: seq<Row>, m: Mutation, scope: Scope, ids: seq<string>): seq<Row> {
    RowsOf(Outcomes(history, m, scope, ids))
  }

  predicate IsOpen(scope: Scope, row: Row) {
    row.privacy.ShareSafe? && row.artifactId in scope.open
  }

  function One(scope: Scope, row: Row, open: bool): nat {
    if row.event.Some? && IsOpen(scope, row) == open then 1 else 0
  }

  /** Label events on the public or the protected side of the case. */
  function Count(scope: Scope, rows: seq<Row>, open: bool): nat {
    if rows == [] then 0 else Count(scope, rows[..|rows| - 1], open) + One(scope, rows[|rows| - 1], open)
  }

  /** Label events the outcomes add to one side. */
  function Added(scope: Scope, outcomes: seq<Outcome>, open: bool): nat {
    if outcomes == [] then 0
    else
      var n := |outcomes| - 1;
      Added(scope, outcomes[..n], open) + if outcomes[n].Applied? then One(scope, outcomes[n].row, open) else 0
  }

  lemma AddedSnoc(scope: Scope, outcomes: seq<Outcome>, outcome: Outcome, open: bool)
    ensures Added(scope, outcomes + [outcome], open)
         == Added(scope, outcomes, open) + if outcome.Applied? then One(scope, outcome.row, open) else 0
  {
    assert (outcomes + [outcome])[..|outcomes|] == outcomes;
  }

  lemma {:induction false} AddedGrows(scope: Scope, outcomes: seq<Outcome>, i: nat, open: bool)
    requires i <= |outcomes|
    ensures Added(scope, outcomes[..i], open) <= Added(scope, outcomes, open)
    decreases |outcomes|
  {
    if i < |outcomes| {
      assert outcomes[..|outcomes| - 1][..i] == outcomes[..i];
      AddedGrows(scope, outcomes[..|outcomes| - 1], i, open);
    } else {
      assert outcomes[..i] == outcomes;
    }
  }

  /** What the outcomes add is what their rows add to the count of the history. */
  lemma {:induction false} CountAfter(scope: Scope, history: seq<Row>, outcomes: seq<Outcome>, open: bool)
    ensures Count(scope, history + RowsOf(outcomes), open) == Count(scope, history, open) + Added(scope, outcomes, open)
  {
    if outcomes == [] {
      assert history + [] == history;
    } else {
      var n := |outcomes| - 1;
      CountAfter(scope, history, outcomes[..n], open);
      CountInserted(scope, history + RowsOf(outcomes[..n]), outcomes[n], open);
      assert history + RowsOf(outcomes) == history + RowsOf(outcomes[..n]) + Inserted(outcomes[n]);
    }
  }

  lemma CountInserted(scope: Scope, rows: seq<Row>, outcome: Outcome, open: bool)
    ensures Count(scope, rows + Inserted(outcome), open)
         == Count(scope, rows, open) + if outcome.Applied? then One(scope, outcome.row, open) else 0
  {
    if outcome.Applied? {
      assert (rows + [outcome.row])[..|rows|] == rows;
    } else {
      assert rows + [] == rows;
    }
  }

  /** A side that gains events stays within the allowance. */
  ghost predicate WithinLimit(scope: Scope, history: seq<Row>, outcomes: seq<Outcome>) {
    forall open: bool :: SideWithin(scope, history, outcomes, open)
  }

  ghost predicate SideWithin(scope: Scope, history: seq<Row>, outcomes: seq<Outcome>, open: bool) {
    Added(scope, outcomes, open) > 0 ==> Count(scope, history, open) + Added(scope, outcomes, open) <= MAX_EVENTS_PER_CASE
  }

  /** The history once the request has dealt with the given artifacts. */
  ghost function After(history: seq<Row>, m: Mutation, scope: Scope, ids: seq<string>): seq<Row> {
    history + NewRows(history, m, scope, ids)
  }

  lemma AfterSnoc(history: seq<Row>, m: Mutation, scope: Scope, ids: seq<string>)
    requires ids != []
    ensures var n := |ids| - 1;
            After(history, m, scope, ids)
            == After(history, m, scope, ids[..n]) + Inserted(OutcomeFor(history, m, scope, ids[n]))
  {
    var n := |ids| - 1;
    var front, last := Outcomes(history, m, scope, ids[..n]), OutcomeFor(history, m, scope, ids[n]);
    assert Outcomes(history, m, scope, ids) == front + [last];
    RowsOfSnoc(front, last);
  }

  /** One more event on a full side can never end within the limit. */
  lemma FullSide(scope: Scope, history: seq<Row>, outcomes: seq<Outcome>, i: nat)
    requires i < |outcomes| && outcomes[i].Applied? && outcomes[i].row.event.Some?
    requires var open := IsOpen(scope, outcomes[i].row);
             Count(scope, history, open) + Added(scope, outcomes[..i], open) >= MAX_EVENTS_PER_CASE
    ensures !WithinLimit(scope, history, outcomes)
  {
    var open := IsOpen(scope, outcomes[i].row);
    assert outcomes[..i + 1] == outcomes[..i] + [outcomes[i]];
    AddedSnoc(scope, outcomes[..i], outcomes[i], open);
    AddedGrows(scope, outcomes, i + 1, open);
    assert !SideWithin(scope, history, outcomes, open);
  }

  /** A request within the limit leaves each side within the allowance or as it was. */
  lemma LimitHolds(history: seq<Row>, m: Mutation, scope: Scope, open: bool)
    requires WithinLimit(scope, history, Outcomes(history, m, scope, m.artifactIds))
    ensures var after := Count(scope, After(history, m, scope, m.artifactIds), open);
            after <= MAX_EVENTS_PER_CASE || after == Count(scope, history, open)
  {
    CountAfter(scope, history, Outcomes(history, m, scope, m.artifactIds), open);
    assert SideWithin(scope, history, Outcomes(history, m, scope, m.artifactIds), open);
  }

  lemma NextOutcome(history: seq<Row>, m: Mutation, scope: Scope, i: nat)
    requires i < |m.artifactIds|
    ensures Outcomes(history, m, scope, m.artifactIds[..i + 1])
         == Outcomes(history, m, scope, m.artifactIds[..i]) + [OutcomeFor(history, m, scope, m.artifactIds[i])]
    ensures Outcomes(history, m, scope, m.artifactIds)[..i] == Outcomes(history, m, scope, m.artifactIds[..i])
  {
  }

  /** An outcome that writes nothing, or writes to a side that is not full, keeps the limit. */
  lemma NextWithin(scope: Scope, history: seq<Row>, outcomes: seq<Outcome>, outcome: Outcome)
    requires WithinLimit(scope, history, outcomes)
    requires outcome.Applied? ==>
      var open := IsOpen(scope, outcome.row);
      Count(scope, history, open) + Added(scope, outcomes, open) < MAX_EVENTS_PER_CASE
    ensures WithinLimit(scope, history, outcomes + [outcome])
  {
    forall open: bool ensures SideWithin(scope, history, outcomes + [outcome], open) {
      AddedSnoc(scope, outcomes, outcome, open);
      assert SideWithin(scope, history, outcomes, open);
    }
  }

  /** The loop of addArtifactAnnotationsBulk for a label mutation; an error means nothing was written. */
  method ApplyMutation(history: seq<Row>, m: Mutation, scope: Scope)
    returns (r: Result<(seq<Row>, seq<Outcome>)>)
    ensures r.Ok? <==> WithinLimit(scope, history, Outcomes(history, m, scope, m.artifactIds))
    ensures r.Ok? ==> r.value.0 == After(history, m, scope, m.artifactIds)
    ensures r.Ok? ==> r.value.1 == Outcomes(history, m, scope, m.artifactIds)
  {
    var ids := m.artifactIds;
    var openCount, protectedCount := Count(scope, history, true), Count(scope, history, false);
    var current := ProjectEvidenceLabels(InLane(history, m.privacy));
    assert forall s :: s in current <==> s in Elements(current);
    var rows: seq<Row>, outcomes: seq<Outcome> := [], [];
    for i := 0 to |ids|
      invariant outcomes == Outcomes(history, m, scope, ids[..i])
      invariant rows == RowsOf(outcomes)
      invariant openCount == Count(scope, history, true) + Added(scope, outcomes, true)
      invariant protectedCount == Count(scope, history, false) + Added(scope, outcomes, false)
      invariant WithinLimit(scope, history, outcomes)
    {
      NextOutcome(history, m, scope, i);
      var outcome: Outcome;
      if ids[i] !in scope.found {
        outcome := NotFound;
      } else if (LabelState(ids[i], m.name) in current) == m.operation.Add? {
        outcome := AlreadyDesired;
      } else {
        var row := EventFor(history, m, ids[i]);
        outcome := Applied(row);
        if (if IsOpen(scope, row) then openCount else protectedCount) >= MAX_EVENTS_PER_CASE {
          FullSide(scope, history, Outcomes(history, m, scope, ids), i);
          return Err("labelMutation");
        }
        if IsOpen(scope, row) { openCount := openCount + 1; } else { protectedCount := protectedCount + 1; }
        rows := rows + [row];
      }
      NextWithin(scope, history, outcomes, outcome);
      AddedSnoc(scope, outcomes, outcome, true);
      AddedSnoc(scope, outcomes, outcome, false);
      RowsOfSnoc(outcomes, outcome);
      outcomes := outcomes + [outcome];
    }
    assert ids[..|ids|] == ids;
    return Ok((history + rows, outcomes));
  }

  // ----- what a request means -------------------------------------------------------------------

  /** The request speaks of this label of an artifact it may label. */
  predicate Covers(m: Mutation, scope: Scope, ids: seq<string>, lane: Privacy, s: LabelState) {
    lane == m.privacy && s.name == m.name && s.artifactId in ids && s.artifactId in scope.found
  }

  lemma {:induction false} RowsAreOutcomes(outcomes: seq<Outcome>)
    ensures forall row :: row in RowsOf(outcomes) ==> Applied(row) in outcomes
  {
    if outcomes != [] {
      var n := |outcomes| - 1;
      RowsAreOutcomes(outcomes[..n]);
      assert outcomes == outcomes[..n] + [outcomes[n]];
    }
  }

  lemma NewRowsIds(history: seq<Row>, m: Mutation, scope: Scope, ids: seq<string>)
    ensures forall row :: row in NewRows(history, m, scope, ids) ==> row.artifactId in ids && row.event.Some?
  {
    var outcomes := Outcomes(history, m, scope, ids);
    RowsAreOutcomes(outcomes);
    forall row | row in NewRows(history, m, scope, ids) ensures row.artifactId in ids && row.event.Some? {
      var i :| 0 <= i < |ids| && outcomes[i] == Applied(row);
    }
  }

  /** A new event lies above everything its artifact has in the lane, what the request just wrote included. */
  lemma EventAbove(history: seq<Row>, m: Mutation, scope: Scope, ids: seq<string>, artifactId: string)
    requires artifactId !in ids
    ensures AboveLane(After(history, m, scope, ids), EventFor(history, m, artifactId))
  {
    NewRowsIds(history, m, scope, ids);
  }

  /** The lane's projection lists the label. */
  ghost predicate Lists(history: seq<Row>, lane: Privacy, s: LabelState) {
    s in Projected(InLane(history, lane))
  }

  /** What one artifact's outcome does, when the request has not touched that artifact before. */
  lemma OutcomeSets(
    history: seq<Row>, before: seq<Row>, m: Mutation, scope: Scope, id: string, lane: Privacy, s: LabelState)
    requires AboveLane(before, EventFor(history, m, id))
    requires Lists(before, m.privacy, LabelState(id, m.name)) <==> Lists(history, m.privacy, LabelState(id, m.name))
    ensures Lists(before + Inserted(OutcomeFor(history, m, scope, id)), lane, s)
       <==> if Covers(m, scope, [id], lane, s) then m.operation.Add? else Lists(before, lane, s)
  {
    var outcome := OutcomeFor(history, m, scope, id);
    if outcome.Applied? {
      AppendIsSetUpdate(before, outcome.row, lane, s);
    } else {
      assert before + [] == before;
    }
  }

  lemma {:induction false} PrefixSets(
    history: seq<Row>, m: Mutation, scope: Scope, ids: seq<string>, lane: Privacy, s: LabelState)
    requires Distinct(ids)
    ensures Lists(After(history, m, scope, ids), lane, s)
       <==> if Covers(m, scope, ids, lane, s) then m.operation.Add? else Lists(history, lane, s)
  {
    if ids == [] {
      assert history + [] == history;
    } else {
      var n := |ids| - 1;
      var front, id := ids[..n], ids[n];
      assert ids == front + [id] && id !in front;
      PrefixSets(history, m, scope, front, lane, s);
      PrefixSets(history, m, scope, front, m.privacy, LabelState(id, m.name));
      EventAbove(history, m, scope, front, id);
      OutcomeSets(history, After(history, m, scope, front), m, scope, id, lane, s);
      AfterSnoc(history, m, scope, ids);
    }
  }

  /**
   After a request every label it covers is listed in its lane exactly if it was
   an add, and every other label of either lane is as before.
   */
  lemma MutationSetsLabels(history: seq<Row>, m: Mutation, scope: Scope, lane: Privacy, s: LabelState)
    requires WellFormed(m)
    ensures Lists(After(history, m, scope, m.artifactIds), lane, s)
       <==> if Covers(m, scope, m.artifactIds, lane, s) then m.operation.Add? else Lists(history, lane, s)
  {
    PrefixSets(history, m, scope, m.artifactIds, lane, s);
  }

  /** An event is written exactly where the request changes what the lane lists, and only unknown artifacts are missed. */
  lemma WritesExactlyChanges(history: seq<Row>, m: Mutation, scope: Scope, i: nat)
    requires WellFormed(m) && i < |m.artifactIds|
    ensures var id, outcome := m.artifactIds[i], Outcomes(history, m, scope, m.artifactIds)[i];
            var s := LabelState(id, m.name);
            && (outcome.NotFound? <==> id !in scope.found)
            && (outcome.Applied? <==> Lists(After(history, m, scope, m.artifactIds), m.privacy, s) != Lists(history, m.privacy, s))
  {
    MutationSetsLabels(history, m, scope, m.privacy, LabelState(m.artifactIds[i], m.name));
  }

  lemma {:induction false} MutationKeepsUnique(history: seq<Row>, m: Mutation, scope: Scope, ids: seq<string>)
    requires Distinct(ids) && LaneUnique(history)
    ensures LaneUnique(After(history, m, scope, ids))
  {
    if ids == [] {
      assert history + [] == history;
    } else {
      var n := |ids| - 1;
      var front, id := ids[..n], ids[n];
      assert ids == front + [id] && id !in front;
      MutationKeepsUnique(history, m, scope, front);
      EventAbove(history, m, scope, front, id);
      AfterSnoc(history, m, scope, ids);
      var outcome := OutcomeFor(history, m, scope, id);
      if outcome.Applied? {
        AppendKeepsUnique(After(history, m, scope, front), outcome.row);
      }
    }
  }

  // ----- every run --------------------------------------------------------------------------------

  /** A label request, or a plain annotation without a label event. */
  datatype Event = Mutate(m: Mutation, scope: Scope) | Annotate(artifactId: string, privacy: Privacy)

  ghost predicate Admitted(history: seq<Row>, e: Event) {
    e.Mutate? && WithinLimit(e.scope, history, Outcomes(history, e.m, e.scope, e.m.artifactIds))
  }

  ghost function Step(history: seq<Row>, e: Event): seq<Row> {
    match e
    case Annotate(artifactId, privacy) => history + [Row(artifactId, privacy, None)]
    case Mutate(m, scope) =>
      if Admitted(history, e) then After(history, m, scope, m.artifactIds) else history
  }

  ghost function Run(es: seq<Event>): seq<Row> {
    if es == [] then [] else Step(Run(es[..|es| - 1]), es[|es| - 1])
  }

  ghost predicate GoodEvents(es: seq<Event>) {
    forall i :: 0 <= i < |es| && es[i].Mutate? ==> WellFormed(es[i].m)
  }

  /** Every history the service writes has lane-unique sequences. */
  lemma {:induction false} RunIsUnique(es: seq<Event>)
    requires GoodEvents(es)
    ensures LaneUnique(Run(es))
  {
    if es != [] {
      var n := |es| - 1;
      var before, e := Run(es[..n]), es[n];
      assert GoodEvents(es[..n]);
      RunIsUnique(es[..n]);
      match e {
        case Annotate(artifactId, privacy) => AppendKeepsUnique(before, Row(artifactId, privacy, None));
        case Mutate(m, scope) => MutationKeepsUnique(before, m, scope, m.artifactIds);
      }
    }
  }

  // ----- sequences count up from one --------------------------------------------------------------

  ghost predicate HasSequence(history: seq<Row>, artifactId: string, lane: Privacy, q: nat) {
    exists row :: row in history && IsAt(row, artifactId, lane, q)
  }

  predicate IsAt(row: Row, artifactId: string, lane: Privacy, q: nat) {
    row.event.Some? && row.artifactId == artifactId && row.privacy == lane && row.event.value.sequence == q
  }

  /** Below every sequence of an artifact's lane lies the next lower one, down to one. */
  ghost predicate Contiguous(history: seq<Row>) {
    forall artifactId, lane, q: nat :: HasSequence(history, artifactId, lane, q) ==>
      q >= 1 && (q > 1 ==> HasSequence(history, artifactId, lane, q - 1))
  }

  lemma {:induction false} MaxIsReached(history: seq<Row>, artifactId: string, lane: Privacy)
    ensures var n := MaxSequence(history, artifactId, lane);
            n == 0 || HasSequence(history, artifactId, lane, n)
  {
    if history != [] {
      var n := MaxSequence(history, artifactId, lane);
      MaxIsReached(history[1..], artifactId, lane);
      if n == MaxSequence(history[1..], artifactId, lane) && n > 0 {
        var row :| row in history[1..] && IsAt(row, artifactId, lane, n);
        assert row in history;
      } else if n > 0 {
        assert IsAt(history[0], artifactId, lane, n) && history[0] in history;
      }
    }
  }

  lemma GrowsHas(history: seq<Row>, row: Row, artifactId: string, lane: Privacy, q: nat)
    ensures HasSequence(history + [row], artifactId, lane, q)
       <==> HasSequence(history, artifactId, lane, q) || IsAt(row, artifactId, lane, q)
  {
    assert forall x :: x in history + [row] <==> x in history || x == row;
  }

  lemma AppendContiguous(history: seq<Row>, row: Row)
    requires Contiguous(history)
    requires row.event.Some? ==>
      var q := row.event.value.sequence;
      q >= 1 && (q > 1 ==> HasSequence(history, row.artifactId, row.privacy, q - 1))
    ensures Contiguous(history + [row])
  {
    forall artifactId, lane, q: nat | HasSequence(history + [row], artifactId, lane, q)
      ensures q >= 1 && (q > 1 ==> HasSequence(history + [row], artifactId, lane, q - 1))
    {
      GrowsHas(history, row, artifactId, lane, q);
      if q > 1 { GrowsHas(history, row, artifactId, lane, q - 1); }
    }
  }

  lemma HasMore(history: seq<Row>, rows: seq<Row>, artifactId: string, lane: Privacy, q: nat)
    requires HasSequence(history, artifactId, lane, q)
    ensures HasSequence(history + rows, artifactId, lane, q)
  {
    var row :| row in history && IsAt(row, artifactId, lane, q);
    assert row in history + rows;
  }

  lemma {:induction false} MutationContiguous(history: seq<Row>, m: Mutation, scope: Scope, ids: seq<string>)
    requires Contiguous(history)
    ensures Contiguous(After(history, m, scope, ids))
  {
    if ids == [] {
      assert history + [] == history;
    } else {
      var n := |ids| - 1;
      var front, id := ids[..n], ids[n];
      MutationContiguous(history, m, scope, front);
      AfterSnoc(history, m, scope, ids);
      NextContiguous(history, After(history, m, scope, front), NewRows(history, m, scope, front), m, scope, id);
    }
  }

  lemma NextContiguous(history: seq<Row>, before: seq<Row>, rows: seq<Row>, m: Mutation, scope: Scope, id: string)
    requires before == history + rows && Contiguous(before)
    ensures Contiguous(before + Inserted(OutcomeFor(history, m, scope, id)))
  {
    var outcome := OutcomeFor(history, m, scope, id);
    if outcome.Applied? {
      var max := MaxSequence(history, id, m.privacy);
      MaxIsReached(history, id, m.privacy);
      if max > 0 { HasMore(history, rows, id, m.privacy, max); }
      AppendContiguous(before, EventFor(history, m, id));
    } else {
      assert before + [] == before;
    }
  }

  /** In every run the sequences of each artifact's lane are one, two, three and so on, without a gap. */
  lemma {:induction false} RunIsContiguous(es: seq<Event>)
    ensures Contiguous(Run(es))
  {
    if es != [] {
      var n := |es| - 1;
      var before, e := Run(es[..n]), es[n];
      RunIsContiguous(es[..n]);
      match e {
        case Annotate(artifactId, privacy) => AppendContiguous(before, Row(artifactId, privacy, None));
        case Mutate(m, scope) => MutationContiguous(before, m, scope, m.artifactIds);
      }
    }
  }

  // ----- hidden history never shows ---------------------------------------------------------------

  lemma {:induction false} MaxInLane(history: seq<Row>, artifactId: string, lane: Privacy)
    ensures MaxSequence(InLane(history, lane), artifactId, lane) == MaxSequence(history, artifactId, lane)
  {
    if history != [] {
      MaxInLane(history[1..], artifactId, lane);
      var x, rest := history[0], InLane(history[1..], lane);
      if x.privacy == lane {
        assert ([x] + rest)[1..] == rest;
      } else {
        assert InLane(history, lane) == rest;
      }
    }
  }

  lemma {:induction false} CountCons(scope: Scope, x: Row, rest: seq<Row>, open: bool)
    ensures Count(scope, [x] + rest, open) == One(scope, x, open) + Count(scope, rest, open)
  {
    if rest == [] {
      assert [x] + rest == [x] && [x][..0] == [];
    } else {
      var n := |rest| - 1;
      var all := [x] + rest;
      assert all[..|all| - 1] == [x] + rest[..n] && all[|all| - 1] == rest[n];
      CountCons(scope, x, rest[..n], open);
    }
  }

  /** The public side is counted in the share-safe lane alone. */
  lemma {:induction false} OpenCountInLane(scope: Scope, history: seq<Row>)
    ensures Count(scope, InLane(history, ShareSafe), true) == Count(scope, history, true)
  {
    if history != [] {
      var x, rest := history[0], history[1..];
      OpenCountInLane(scope, rest);
      assert history == [x] + rest;
      CountCons(scope, x, rest, true);
      if x.privacy.ShareSafe? {
        CountCons(scope, x, InLane(rest, ShareSafe), true);
      } else {
        assert InLane(history, ShareSafe) == InLane(rest, ShareSafe);
      }
    }
  }

  lemma {:induction false} NothingProtected(scope: Scope, outcomes: seq<Outcome>)
    requires forall i :: 0 <= i < |outcomes| && outcomes[i].Applied? ==> IsOpen(scope, outcomes[i].row)
    ensures Added(scope, outcomes, false) == 0
  {
    if outcomes != [] { NothingProtected(scope, outcomes[..|outcomes| - 1]); }
  }

  lemma SameEvent(a: seq<Row>, b: seq<Row>, m: Mutation, id: string)
    requires InLane(a, m.privacy) == InLane(b, m.privacy)
    ensures EventFor(a, m, id) == EventFor(b, m, id)
  {
    MaxInLane(a, id, m.privacy);
    MaxInLane(b, id, m.privacy);
  }

  lemma SameOutcome(a: seq<Row>, b: seq<Row>, m: Mutation, scope: Scope, id: string)
    requires InLane(a, m.privacy) == InLane(b, m.privacy)
    ensures OutcomeFor(a, m, scope, id) == OutcomeFor(b, m, scope, id)
  {
    SameEvent(a, b, m, id);
    assert Projected(InLane(a, m.privacy)) == Projected(InLane(b, m.privacy));
  }

  /**
   A share-safe request on public artifacts gets the same outcomes and the same
   admission whatever the owner-only history holds.
   */
  lemma HiddenNeverShows(a: seq<Row>, b: seq<Row>, m: Mutation, scope: Scope)
    requires m.privacy == ShareSafe && scope.found <= scope.open
    requires InLane(a, ShareSafe) == InLane(b, ShareSafe)
    ensures Outcomes(a, m, scope, m.artifactIds) == Outcomes(b, m, scope, m.artifactIds)
    ensures WithinLimit(scope, a, Outcomes(a, m, scope, m.artifactIds))
       <==> WithinLimit(scope, b, Outcomes(b, m, scope, m.artifactIds))
  {
    var outcomes := Outcomes(a, m, scope, m.artifactIds);
    forall i | 0 <= i < |m.artifactIds| ensures outcomes[i] == Outcomes(b, m, scope, m.artifactIds)[i] {
      SameOutcome(a, b, m, scope, m.artifactIds[i]);
    }
    assert outcomes == Outcomes(b, m, scope, m.artifactIds);
    OpenCountInLane(scope, a);
    OpenCountInLane(scope, b);
    NothingProtected(scope, outcomes);
    OnlyOpenMatters(scope, a, outcomes);
    OnlyOpenMatters(scope, b, outcomes);
  }

  lemma OnlyOpenMatters(scope: Scope, history: seq<Row>, outcomes: seq<Outcome>)
    requires Added(scope, outcomes, false) == 0
    ensures WithinLimit(scope, history, outcomes) <==> SideWithin(scope, history, outcomes, true)
  {
    assert SideWithin(scope, history, outcomes, false);
    if SideWithin(scope, history, outcomes, true) {
      forall open: bool ensures SideWithin(scope, history, outcomes, open) {
        assert open == true || open == false;
      }
    }
  }

  /** What the last admitted request covering a label asked for. */
  ghost function Wanted(es: seq<Event>, lane: Privacy, s: LabelState): bool {
    if es == [] then false
    else
      var n := |es| - 1;
      var e := es[n];
      if Admitted(Run(es[..n]), e) && Covers(e.m, e.scope, e.m.artifactIds, lane, s) then e.m.operation.Add?
      else Wanted(es[..n], lane, s)
  }

  lemma PlainRowInert(history: seq<Row>, row: Row, lane: Privacy, s: LabelState)
    requires row.event.None?
    ensures Lists(history + [row], lane, s) <==> Lists(history, lane, s)
  {
    LaneLists(history, lane, s);
    LaneLists(history + [row], lane, s);
    AppendOther(history, row, Key(s.artifactId, s.name, lane));
  }

  lemma StepSets(history: seq<Row>, e: Event, lane: Privacy, s: LabelState)
    requires e.Mutate? ==> WellFormed(e.m)
    ensures Lists(Step(history, e), lane, s)
       <==> if Admitted(history, e) && Covers(e.m, e.scope, e.m.artifactIds, lane, s) then e.m.operation.Add?
            else Lists(history, lane, s)
  {
    match e
    case Annotate(artifactId, privacy) => PlainRowInert(history, Row(artifactId, privacy, None), lane, s);
    case Mutate(m, scope) => MutationSetsLabels(history, m, scope, lane, s);
  }

  /** In every run a lane lists a label exactly when the last admitted request about it was an add. */
  lemma {:induction false} LastRequestWins(es: seq<Event>, lane: Privacy, s: LabelState)
    requires GoodEvents(es)
    ensures Lists(Run(es), lane, s) <==> Wanted(es, lane, s)
  {
    if es == [] {
      NothingListed(lane, s);
    } else {
      var n := |es| - 1;
      assert GoodEvents(es[..n]);
      LastRequestWins(es[..n], lane, s);
      StepSets(Run(es[..n]), es[n], lane, s);
    }
  }

  lemma NothingListed(lane: Privacy, s: LabelState)
    ensures !Lists([], lane, s)
  {
    assert InLane([], lane) == [] && Events([]) == [];
  }
}
