/**
 The annotation list envelope: every row is bound to the case, label sequences
 are unique per artifact and privacy lane, and a served label list must equal
 the projection of the served history.
 */
module ArtifactAnnotation {
  import opened Wrappers
  import opened Ordering
  import opened EvidenceLabels

  datatype Annotation = Annotation(caseId: string, row: Row, body: string)

  /** A served label; the lists are compared as JSON text, where the order of its two keys shows. */
  datatype Served = Served(state: LabelState, artifactFirst: bool)

  datatype AnnotationList = AnnotationList(
    caseId: string, annotations: seq<Annotation>, currentLabels: Option<seq<Served>>)

  /** The projection writes the artifact before the label. */
  function Written(states: seq<LabelState>): (r: seq<Served>)
    ensures |r| == |states| && forall i :: 0 <= i < |r| ==> r[i] == Served(states[i], true)
  {
    seq(|states|, i requires 0 <= i < |states| => Served(states[i], true))
  }

  function States(labels: seq<Served>): (r: seq<LabelState>)
    ensures |r| == |labels| && forall i :: 0 <= i < |r| ==> r[i] == labels[i].state
  {
    seq(|labels|, i requires 0 <= i < |labels| => labels[i].state)
  }

  function Rows(annotations: seq<Annotation>): (rows: seq<Row>)
    ensures |rows| == |annotations|
    ensures forall i :: 0 <= i < |rows| ==> rows[i] == annotations[i].row
  {
    seq(|annotations|, i requires 0 <= i < |annotations| => annotations[i].row)
  }

  /** `rowOk` stands for parseArtifactAnnotation's checks on one row. */
  ghost predicate Accepted(rowOk: Annotation -> bool, list: AnnotationList) {
    && (forall i :: 0 <= i < |list.annotations| ==>
          rowOk(list.annotations[i]) && list.annotations[i].caseId == list.caseId)
    && LaneUnique(Rows(list.annotations))
    && (list.currentLabels.Some? ==>
          && (forall i :: 0 <= i < |list.currentLabels.value| ==> list.currentLabels.value[i].artifactFirst)
          && InLabelOrder(States(list.currentLabels.value))
          && Elements(States(list.currentLabels.value)) == Projected(Rows(list.annotations)))
  }

  /** Compares the number of distinct lane sequences with the number of label events. */
  method HasLaneUniqueSequences(rows: seq<Row>) returns (ok: bool)
    ensures ok <==> LaneUnique(rows)
  {
    var keys: set<(string, Privacy, nat)> := {};
    var count := 0;
    for i := 0 to |rows|
      invariant Counted(rows[..i], keys, count)
    {
      CountRow(rows, i, keys, count);
      if rows[i].event.Some? {
        keys := keys + {LaneKey(rows[i])};
        count := count + 1;
      }
    }
    assert rows[..|rows|] == rows;
    ok := |keys| == count;
  }

  /** After counting `rows`, as many keys as events means unique sequences. */
  ghost predicate Counted(rows: seq<Row>, keys: set<(string, Privacy, nat)>, count: nat) {
    keys == LaneKeys(rows) && |keys| <= count && (|keys| == count <==> LaneUnique(rows))
  }

  lemma CountRow(rows: seq<Row>, i: nat, keys: set<(string, Privacy, nat)>, count: nat)
    requires i < |rows| && Counted(rows[..i], keys, count)
    ensures if rows[i].event.Some? then Counted(rows[..i + 1], keys + {LaneKey(rows[i])}, count + 1)
            else Counted(rows[..i + 1], keys, count)
  {
    assert rows[..i + 1] == rows[..i] + [rows[i]];
    ExtendUnique(rows[..i], rows[i]);
  }

  ghost function LaneKeys(rows: seq<Row>): set<(string, Privacy, nat)> {
    set row | row in rows && row.event.Some? :: LaneKey(row)
  }

  lemma ExtendUnique(rows: seq<Row>, row: Row)
    ensures LaneKeys(rows + [row]) == LaneKeys(rows) + if row.event.Some? then {LaneKey(row)} else {}
    ensures LaneUnique(rows + [row])
            <==> LaneUnique(rows) && (row.event.Some? ==> LaneKey(row) !in LaneKeys(rows))
  {
    var next, n := rows + [row], |rows|;
    assert forall x :: x in next <==> x in rows || x == row;
    assert forall k :: 0 <= k < n ==> next[k] == rows[k];
    if row.event.Some? && LaneKey(row) in LaneKeys(rows) {
      var other :| other in rows && other.event.Some? && LaneKey(other) == LaneKey(row);
      var k :| 0 <= k < n && rows[k] == other;
      assert SameLane(next[k], next[n]);
    }
    if LaneUnique(next) {
      forall i, j | 0 <= i < j < n && SameLane(rows[i], rows[j])
        ensures rows[i].event.value.sequence != rows[j].event.value.sequence
      {
        assert SameLane(next[i], next[j]);
      }
    }
  }

  function LaneKey(row: Row): (string, Privacy, nat)
    requires row.event.Some?
  {
    (row.artifactId, row.privacy, row.event.value.sequence)
  }

  method ParseAnnotationList(rowOk: Annotation -> bool, list: AnnotationList) returns (r: Result<AnnotationList>)
    ensures r.Ok? <==> Accepted(rowOk, list)
    ensures r.Ok? ==> r.value == list
  {
    for i := 0 to |list.annotations|
      invariant forall k :: 0 <= k < i ==>
        rowOk(list.annotations[k]) && list.annotations[k].caseId == list.caseId
    {
      if !rowOk(list.annotations[i]) { return Err("annotations"); }
      if list.annotations[i].caseId != list.caseId { return Err("annotations.caseId"); }
    }
    var rows := Rows(list.annotations);
    var unique := HasLaneUniqueSequences(rows);
    if !unique { return Err("annotations"); }
    if list.currentLabels.Some? {
      var projected := ProjectEvidenceLabels(rows);
      StateStrictTotal();
      OneListing(list.currentLabels.value, projected);
      if list.currentLabels.value != Written(projected) {
        return Err("currentLabels");
      }
    }
    return Ok(list);
  }

  /** The only accepted text of a label list is its ascending listing, artifacts first. */
  lemma OneListing(a: seq<Served>, b: seq<LabelState>)
    requires InLabelOrder(b)
    ensures a == Written(b)
       <==> && (forall i :: 0 <= i < |a| ==> a[i].artifactFirst)
            && InLabelOrder(States(a)) && Elements(States(a)) == Elements(b)
  {
    StateStrictTotal();
    LabelOrder(States(a));
    LabelOrder(b);
    if a == Written(b) {
      assert States(a) == b;
    }
    if InLabelOrder(States(a)) && Elements(States(a)) == Elements(b) {
      AscendingUnique(States(a), b, StateLt);
    }
  }

  /**
   A served label list is decided by the history alone: a label is in it exactly
   when it is live in some lane, and any two accepted deliveries of the same
   rows, in whatever order, carry the same list.
   */
  lemma LabelsDecidedByHistory(rowOk: Annotation -> bool, a: AnnotationList, b: AnnotationList)
    requires Accepted(rowOk, a) && Accepted(rowOk, b)
    requires a.currentLabels.Some? && b.currentLabels.Some?
    requires multiset(Rows(a.annotations)) == multiset(Rows(b.annotations))
    ensures a.currentLabels == b.currentLabels
    ensures forall s: LabelState ::
      s in Elements(States(a.currentLabels.value))
      <==> exists lane: Privacy :: Live(Rows(a.annotations), Key(s.artifactId, s.name, lane))
  {
    OrderIrrelevant(Rows(a.annotations), Rows(b.annotations));
    OneListing(a.currentLabels.value, States(b.currentLabels.value));
    OneListing(b.currentLabels.value, States(b.currentLabels.value));
    forall s: LabelState ensures s in Elements(States(a.currentLabels.value))
      <==> exists lane: Privacy :: Live(Rows(a.annotations), Key(s.artifactId, s.name, lane))
    {
      ProjectedExact(Rows(a.annotations), s);
    }
  }
}
