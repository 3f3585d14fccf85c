/**
 Evidence labels: an append-only history of add/remove events is projected, in
 sequence order, through a mutable map of active labels.  Sequences are unique
 only within one artifact and privacy lane.
 */
module EvidenceLabels {
  import opened Wrappers
  import opened Ordering

  datatype Privacy = OwnerOnly | ShareSafe
  datatype Operation = Add | Remove
  datatype LabelEvent = LabelEvent(name: string, operation: Operation, sequence: nat)
  datatype Row = Row(artifactId: string, privacy: Privacy, event: Option<LabelEvent>)
  datatype LabelState = LabelState(artifactId: string, name: string)

  /** The injective JSON key under which a label is active. */
  datatype Key = Key(artifactId: string, name: string, privacy: Privacy)

  function KeyOf(row: Row): Key
    requires row.event.Some?
  {
    Key(row.artifactId, row.event.value.name, row.privacy)
  }

  function StateOf(k: Key): LabelState {
    LabelState(k.artifactId, k.name)
  }

  predicate Matches(row: Row, k: Key) {
    row.event.Some? && KeyOf(row) == k
  }

  predicate Earlier(a: Row, b: Row) {
    a.event.Some? && b.event.Some? && a.event.value.sequence < b.event.value.sequence
  }

  predicate StateLt(a: LabelState, b: LabelState) {
    if a.artifactId != b.artifactId then LexLt(a.artifactId, b.artifactId) else LexLt(a.name, b.name)
  }

  /** By artifact, and within an artifact by label, each by first differing character. */
  ghost predicate StatePrecedes(a: LabelState, b: LabelState) {
    Precedes(a.artifactId, b.artifactId) || (a.artifactId == b.artifactId && Precedes(a.name, b.name))
  }

  ghost predicate InLabelOrder(r: seq<LabelState>) {
    forall i, j :: 0 <= i < j < |r| ==> StatePrecedes(r[i], r[j])
  }

  lemma LabelOrder(r: seq<LabelState>)
    ensures InLabelOrder(r) <==> Ascending(r, StateLt)
  {
    forall a: LabelState, b: LabelState ensures StatePrecedes(a, b) <==> StateLt(a, b) {
      LexByFirstDifference(a.artifactId, b.artifactId);
      LexByFirstDifference(a.name, b.name);
      LexTrichotomy(a.artifactId, a.artifactId);
    }
  }

  lemma StateStrictTotal()
    ensures StrictTotal(StateLt)
  {
    LexStrictTotal();
    forall x, y, z | StateLt(x, y) && StateLt(y, z) ensures StateLt(x, z) {
      if x.artifactId == z.artifactId && x.artifactId != y.artifactId {
        LexTransitive(x.artifactId, y.artifactId, x.artifactId);
        LexTrichotomy(x.artifactId, x.artifactId);
      }
    }
    forall x: LabelState, y: LabelState ensures !StateLt(x, x) && (x != y ==> StateLt(x, y) || StateLt(y, x)) {
      LexTrichotomy(x.artifactId, y.artifactId);
      LexTrichotomy(x.name, y.name);
    }
  }

  function Events(history: seq<Row>): (r: seq<Row>)
    ensures forall row :: row in r <==> row in history && row.event.Some?
  {
    if history == [] then []
    else (if history[0].event.Some? then [history[0]] else []) + Events(history[1..])
  }

  /** The keys left active after applying the events in the given order. */
  function Replay(rows: seq<Row>): set<Key>
    requires forall row :: row in rows ==> row.event.Some?
  {
    if rows == [] then {}
    else
      var n := |rows| - 1;
      var before := Replay(rows[..n]);
      if rows[n].event.value.operation.Add? then before + {KeyOf(rows[n])} else before - {KeyOf(rows[n])}
  }

  function InOrder(history: seq<Row>): (r: seq<Row>)
    ensures forall row :: row in r <==> row in history && row.event.Some?
  {
    var events := Events(history);
    SortElements(events, Earlier);
    Sort(events, Earlier)
  }

  ghost function Projected(history: seq<Row>): set<LabelState> {
    set k | k in Replay(InOrder(history)) :: StateOf(k)
  }

  /** The active map after some events: its keys are the replayed ones, each with its own label. */
  ghost predicate Tracks(active: map<Key, LabelState>, rows: seq<Row>)
    requires forall row :: row in rows ==> row.event.Some?
  {
    active.Keys == Replay(rows) && forall k :: k in active ==> active[k] == StateOf(k)
  }

  /** One turn of the loop: set on an add, delete on a remove. */
  function Apply(active: map<Key, LabelState>, row: Row): map<Key, LabelState>
    requires row.event.Some?
  {
    if row.event.value.operation.Add? then
      active[KeyOf(row) := LabelState(row.artifactId, row.event.value.name)]
    else active - {KeyOf(row)}
  }

  lemma ApplyTracks(active: map<Key, LabelState>, rows: seq<Row>, row: Row)
    requires row.event.Some? && (forall r :: r in rows ==> r.event.Some?)
    requires Tracks(active, rows)
    ensures forall r :: r in rows + [row] ==> r.event.Some?
    ensures Tracks(Apply(active, row), rows + [row])
  {
    assert (rows + [row])[..|rows|] == rows;
    assert Apply(active, row).Keys == Replay(rows + [row]);
  }

  lemma TrackedValues(active: map<Key, LabelState>, history: seq<Row>)
    requires Tracks(active, InOrder(history))
    ensures active.Values == Projected(history)
  {
    forall s ensures s in active.Values <==> s in Projected(history) {
      if s in active.Values {
        var k :| k in active && active[k] == s;
        assert k in Replay(InOrder(history)) && StateOf(k) == s;
      }
      if s in Projected(history) {
        var k :| k in Replay(InOrder(history)) && StateOf(k) == s;
        assert k in active && active[k] == s;
      }
    }
  }

  /** The loop over the sorted events. */
  method ReplayEvents(rows: seq<Row>) returns (active: map<Key, LabelState>)
    requires forall row :: row in rows ==> row.event.Some?
    ensures Tracks(active, rows)
  {
    active := map[];
    for i := 0 to |rows|
      invariant Tracks(active, rows[..i])
    {
      assert rows[..i + 1] == rows[..i] + [rows[i]];
      ApplyTracks(active, rows[..i], rows[i]);
      active := Apply(active, rows[i]);
    }
    assert rows[..|rows|] == rows;
  }

  /** The result lists the projected labels once each, in ascending order. */
  method ProjectEvidenceLabels(history: seq<Row>) returns (r: seq<LabelState>)
    ensures InLabelOrder(r)
    ensures Elements(r) == Projected(history)
  {
    var active := ReplayEvents(InOrder(history));
    StateStrictTotal();
    r := Sorted(active.Values, StateLt);
    LabelOrder(r);
    TrackedValues(active, history);
  }

  // ----- what the projection means ---------------------------------------------------

  /** Some add event of this key has the highest sequence among the key's events. */
  ghost predicate Live(history: seq<Row>, k: Key) {
    exists row :: row in history && TopAdd(history, k, row)
  }

  ghost predicate TopAdd(history: seq<Row>, k: Key, row: Row) {
    && Matches(row, k) && row.event.value.operation.Add?
    && forall other :: other in history && Matches(other, k) ==>
         other.event.value.sequence <= row.event.value.sequence
  }

  /** Sequences are unique within an artifact and privacy lane, as the list parser demands. */
  ghost predicate LaneUnique(history: seq<Row>) {
    forall i, j | 0 <= i < j < |history| && SameLane(history[i], history[j]) ::
      history[i].event.value.sequence != history[j].event.value.sequence
  }

  predicate SameLane(a: Row, b: Row) {
    a.event.Some? && b.event.Some? && a.artifactId == b.artifactId && a.privacy == b.privacy
  }

  lemma LaneUniqueAgree(history: seq<Row>, a: Row, b: Row, k: Key)
    requires LaneUnique(history) && a in history && b in history
    requires Matches(a, k) && Matches(b, k) && a.event.value.sequence == b.event.value.sequence
    ensures a == b
  {
    var i :| 0 <= i < |history| && history[i] == a;
    var j :| 0 <= j < |history| && history[j] == b;
  }

  ghost predicate Ordered(rows: seq<Row>) {
    && (forall row :: row in rows ==> row.event.Some?)
    && forall i, j :: 0 <= i < j < |rows| ==> rows[i].event.value.sequence <= rows[j].event.value.sequence
  }

  lemma HeadEarliest(rows: seq<Row>, y: Row)
    requires Ordered(rows) && rows != [] && y in rows
    ensures rows[0].event.value.sequence <= y.event.value.sequence
  {
    var i :| 0 <= i < |rows| && rows[i] == y;
  }

  lemma OrderedRest(rows: seq<Row>)
    requires Ordered(rows) && rows != []
    ensures Ordered(rows[1..])
    ensures forall y :: y in rows[1..] ==> y in rows
  {
    assert forall i :: 0 <= i < |rows[1..]| ==> rows[1..][i] == rows[i + 1];
  }

  lemma {:induction false} InsertOrdered(x: Row, rows: seq<Row>)
    requires Ordered(rows) && x.event.Some?
    ensures Ordered(Insert(x, rows, Earlier))
  {
    if rows == [] {
    } else if Earlier(rows[0], x) {
      var rest := rows[1..];
      OrderedRest(rows);
      InsertOrdered(x, rest);
      InsertElements(x, rest, Earlier);
      forall y | y in Insert(x, rest, Earlier) ensures rows[0].event.value.sequence <= y.event.value.sequence {
        if y != x { HeadEarliest(rows, y); }
      }
      ConsOrdered(rows[0], Insert(x, rest, Earlier));
    } else {
      forall y | y in rows ensures x.event.value.sequence <= y.event.value.sequence {
        HeadEarliest(rows, y);
      }
      ConsOrdered(x, rows);
    }
  }

  lemma ConsOrdered(x: Row, rows: seq<Row>)
    requires Ordered(rows) && x.event.Some?
    requires forall row :: row in rows ==> x.event.value.sequence <= row.event.value.sequence
    ensures Ordered([x] + rows)
  {
    var r := [x] + rows;
    forall i, j | 0 <= i < j < |r| ensures r[i].event.value.sequence <= r[j].event.value.sequence {
      assert r[j] == rows[j - 1] && rows[j - 1] in rows;
      assert i > 0 ==> r[i] == rows[i - 1];
    }
  }

  lemma {:induction false} SortOrdered(rows: seq<Row>)
    requires forall row :: row in rows ==> row.event.Some?
    ensures Ordered(Sort(rows, Earlier))
  {
    if rows != [] {
      SortOrdered(rows[1..]);
      InsertOrdered(rows[0], Sort(rows[1..], Earlier));
    }
  }

  // ----- the deciding event ----------------------------------------------------------------

  ghost predicate HasMatch(rows: seq<Row>, k: Key) {
    exists row :: row in rows && Matches(row, k)
  }

  /** Some event of the key is at least as late as `row`. */
  ghost predicate HasLater(rows: seq<Row>, k: Key, row: Row)
    requires row.event.Some?
  {
    exists other :: other in rows && Matches(other, k) && other.event.value.sequence >= row.event.value.sequence
  }

  predicate IsAdd(row: Row) {
    row.event.Some? && row.event.value.operation.Add?
  }

  /** An event decides its key only if no event of that key follows it. */
  lemma {:induction false} ReplayCons(x: Row, rows: seq<Row>, k: Key)
    requires x.event.Some? && forall row :: row in rows ==> row.event.Some?
    ensures forall row :: row in [x] + rows ==> row.event.Some?
    ensures k in Replay([x] + rows) <==> if HasMatch(rows, k) then k in Replay(rows) else Matches(x, k) && IsAdd(x)
  {
    var all := [x] + rows;
    if rows == [] {
      assert all[..0] == [];
    } else {
      var n := |rows| - 1;
      assert all[..|all| - 1] == [x] + rows[..n] && all[|all| - 1] == rows[n];
      ReplayCons(x, rows[..n], k);
      MatchSnoc(rows, k);
    }
  }

  lemma MatchSnoc(rows: seq<Row>, k: Key)
    requires rows != []
    ensures HasMatch(rows, k) <==> HasMatch(rows[..|rows| - 1], k) || Matches(rows[|rows| - 1], k)
  {
    var n := |rows| - 1;
    assert rows == rows[..n] + [rows[n]];
    if Matches(rows[n], k) { assert rows[n] in rows; }
  }

  lemma {:induction false} ActiveHasMatch(rows: seq<Row>, k: Key)
    requires forall row :: row in rows ==> row.event.Some?
    ensures k in Replay(rows) ==> HasMatch(rows, k)
  {
    if rows != [] {
      ActiveHasMatch(rows[..|rows| - 1], k);
      MatchSnoc(rows, k);
    }
  }

  /** Inserting before equals: the new event decides only if it is strictly the latest. */
  lemma {:induction false} InsertReplay(x: Row, rows: seq<Row>, k: Key)
    requires x.event.Some? && Ordered(rows)
    ensures forall row :: row in Insert(x, rows, Earlier) ==> row.event.Some?
    ensures k in Replay(Insert(x, rows, Earlier))
       <==> if Matches(x, k) && !HasLater(rows, k, x) then IsAdd(x) else k in Replay(rows)
  {
    InsertElements(x, rows, Earlier);
    ActiveHasMatch(rows, k);
    if rows != [] && Earlier(rows[0], x) {
      var head, rest := rows[0], rows[1..];
      assert rows == [head] + rest;
      OrderedRest(rows);
      InsertReplay(x, rest, k);
      ReplayCons(head, Insert(x, rest, Earlier), k);
      ReplayCons(head, rest, k);
      MatchInsert(x, rest, k);
      LaterCons(head, rest, k, x);
    } else {
      ReplayCons(x, rows, k);
      assert rows == [] ==> [x] + rows == [x];
      LaterThanAll(x, rows, k);
    }
  }

  lemma MatchInsert(x: Row, rows: seq<Row>, k: Key)
    ensures HasMatch(Insert(x, rows, Earlier), k) <==> Matches(x, k) || HasMatch(rows, k)
  {
    InsertElements(x, rows, Earlier);
    if Matches(x, k) { assert x in Insert(x, rows, Earlier); }
  }

  lemma LaterCons(head: Row, rest: seq<Row>, k: Key, x: Row)
    requires Earlier(head, x)
    ensures HasLater([head] + rest, k, x) <==> HasLater(rest, k, x)
    ensures HasLater(rest, k, x) ==> HasMatch(rest, k)
  {
  }

  lemma LaterThanAll(x: Row, rows: seq<Row>, k: Key)
    requires x.event.Some? && Ordered(rows) && (rows == [] || !Earlier(rows[0], x))
    ensures HasLater(rows, k, x) <==> HasMatch(rows, k)
  {
    forall y | y in rows ensures x.event.value.sequence <= y.event.value.sequence {
      HeadEarliest(rows, y);
    }
  }

  /** Of the key's events with the highest sequence, the one delivered last. */
  ghost predicate Decides(history: seq<Row>, k: Key, i: int) {
    && 0 <= i < |history| && Matches(history[i], k)
    && (forall row :: row in history && Matches(row, k) ==> row.event.value.sequence <= history[i].event.value.sequence)
    && (forall j :: i < j < |history| && Matches(history[j], k) ==>
          history[j].event.value.sequence < history[i].event.value.sequence)
  }

  lemma DecidesUnique(history: seq<Row>, k: Key, i: int, j: int)
    requires Decides(history, k, i) && Decides(history, k, j)
    ensures i == j
  {
    assert history[i] in history && history[j] in history;
  }

  lemma DecidesCons(x: Row, rest: seq<Row>, k: Key, i: int)
    requires Decides(rest, k, i)
    requires Matches(x, k) ==> x.event.value.sequence <= rest[i].event.value.sequence
    ensures Decides([x] + rest, k, i + 1)
  {
    var all := [x] + rest;
    assert forall j :: 0 < j < |all| ==> all[j] == rest[j - 1];
  }

  lemma DecidesFirst(x: Row, rest: seq<Row>, k: Key)
    requires Matches(x, k) && !HasLater(rest, k, x)
    ensures Decides([x] + rest, k, 0)
  {
    var all := [x] + rest;
    assert forall j :: 0 < j < |all| ==> all[j] in rest;
  }

  lemma MatchCons(x: Row, rest: seq<Row>, k: Key)
    ensures HasMatch([x] + rest, k) <==> Matches(x, k) || HasMatch(rest, k)
    ensures x.event.Some? && HasLater(rest, k, x) ==> HasMatch(rest, k)
  {
    if Matches(x, k) { assert x in [x] + rest; }
    if HasMatch(rest, k) {
      var row :| row in rest && Matches(row, k);
      assert row in [x] + rest;
    }
  }

  /** How the first delivered row enters the replay. */
  lemma FirstRow(x: Row, rest: seq<Row>, k: Key)
    ensures k in Replay(InOrder([x] + rest))
       <==> if Matches(x, k) && !HasLater(rest, k, x) then IsAdd(x) else k in Replay(InOrder(rest))
  {
    var all := [x] + rest;
    assert all[1..] == rest;
    if x.event.Some? {
      SortOrdered(Events(rest));
      InsertReplay(x, InOrder(rest), k);
      assert Events(all) == [x] + Events(rest);
      assert Events(all)[1..] == Events(rest);
      assert InOrder(all) == Insert(x, InOrder(rest), Earlier);
      LaterSameRows(InOrder(rest), rest, k, x);
    } else {
      assert Events(all) == Events(rest);
    }
  }

  lemma LaterSameRows(a: seq<Row>, b: seq<Row>, k: Key, x: Row)
    requires x.event.Some? && forall row :: row in a <==> row in b && row.event.Some?
    ensures HasLater(a, k, x) <==> HasLater(b, k, x)
  {
  }

  /** `i` is the deciding event of the key, or negative if it has none; `active` says whether it is an add. */
  ghost predicate DecidedBy(history: seq<Row>, k: Key, i: int, active: bool) {
    && (i >= 0 <==> HasMatch(history, k))
    && (i >= 0 ==> Decides(history, k, i))
    && (active <==> i >= 0 && IsAdd(history[i]))
  }

  /** The deciding event after one more row in front, from the deciding event `d` of the rest. */
  lemma DecidedCons(x: Row, rest: seq<Row>, k: Key, d: int, activeRest: bool, active: bool) returns (i: int)
    requires DecidedBy(rest, k, d, activeRest)
    requires active <==> if Matches(x, k) && !HasLater(rest, k, x) then IsAdd(x) else activeRest
    ensures DecidedBy([x] + rest, k, i, active)
  {
    i := -1;
    MatchCons(x, rest, k);
    if Matches(x, k) && !HasLater(rest, k, x) {
      i := 0;
      DecidesFirst(x, rest, k);
    } else if d >= 0 {
      i := d + 1;
      if Matches(x, k) { LaterBelow(x, rest, k, d); }
      DecidesCons(x, rest, k, d);
      assert ([x] + rest)[i] == rest[d];
    }
  }

  lemma LaterBelow(x: Row, rest: seq<Row>, k: Key, d: int)
    requires x.event.Some? && HasLater(rest, k, x) && Decides(rest, k, d)
    ensures x.event.value.sequence <= rest[d].event.value.sequence
  {
  }

  /**
   In every history, ties or not, a key is active exactly when its deciding event
   is an add.
   */
  lemma {:induction false} DecidedByLast(history: seq<Row>, k: Key) returns (i: int)
    ensures DecidedBy(history, k, i, k in Replay(InOrder(history)))
  {
    i := -1;
    if history != [] {
      var x, rest := history[0], history[1..];
      assert history == [x] + rest;
      var d := DecidedByLast(rest, k);
      FirstRow(x, rest, k);
      i := DecidedCons(x, rest, k, d, k in Replay(InOrder(rest)), k in Replay(InOrder(history)));
    }
  }

  lemma ActiveAt(history: seq<Row>, k: Key, i: int)
    requires Decides(history, k, i)
    ensures k in Replay(InOrder(history)) <==> IsAdd(history[i])
  {
    var j := DecidedByLast(history, k);
    assert history[i] in history;
    DecidesUnique(history, k, i, j);
  }

  // ----- exactly when delivery order matters -----------------------------------------------

  /** Some remove of this key has the highest sequence among the key's events. */
  ghost predicate Dropped(history: seq<Row>, k: Key) {
    exists row :: row in history && TopRemove(history, k, row)
  }

  ghost predicate TopRemove(history: seq<Row>, k: Key, row: Row) {
    && Matches(row, k) && row.event.value.operation.Remove?
    && forall other :: other in history && Matches(other, k) ==>
         other.event.value.sequence <= row.event.value.sequence
  }

  /** An add and a remove of the key share its highest sequence. */
  ghost predicate MixedTie(history: seq<Row>, k: Key) {
    Live(history, k) && Dropped(history, k)
  }

  ghost predicate Permuted(a: seq<Row>, b: seq<Row>) {
    multiset(a) == multiset(b)
  }

  lemma PermutedRows(a: seq<Row>, b: seq<Row>)
    requires Permuted(a, b)
    ensures forall row :: row in a <==> row in b
  {
    assert forall row :: row in a <==> row in multiset(a);
    assert forall row :: row in b <==> row in multiset(b);
  }

  lemma TopsSameRows(a: seq<Row>, b: seq<Row>, k: Key)
    requires forall row :: row in a <==> row in b
    ensures Live(a, k) <==> Live(b, k)
    ensures Dropped(a, k) <==> Dropped(b, k)
  {
    assert forall row :: TopAdd(a, k, row) <==> TopAdd(b, k, row);
    assert forall row :: TopRemove(a, k, row) <==> TopRemove(b, k, row);
  }

  /** A live key is active unless a remove ties with its latest add; a key that is not live never is. */
  lemma ActiveBounds(history: seq<Row>, k: Key)
    ensures k in Replay(InOrder(history)) ==> Live(history, k)
    ensures Live(history, k) && !Dropped(history, k) ==> k in Replay(InOrder(history))
  {
    var i := DecidedByLast(history, k);
    if i >= 0 {
      if IsAdd(history[i]) {
        assert TopAdd(history, k, history[i]);
      } else {
        assert TopRemove(history, k, history[i]);
      }
    }
  }

  /** The history with one of its rows delivered last. */
  lemma DeliverLast(history: seq<Row>, row: Row) returns (p: seq<Row>)
    requires row in history
    ensures Permuted(history, p) && |p| == |history| && p[|p| - 1] == row
    ensures history[|history| - 1] != row ==> |p| > 1 && p[|p| - 2] == history[|history| - 1]
  {
    var i :| 0 <= i < |history| && history[i] == row;
    p := history[..i] + history[i + 1..] + [row];
    assert history == history[..i] + [row] + history[i + 1..];
  }

  lemma DeliverTwoLast(history: seq<Row>, first: Row, second: Row) returns (q: seq<Row>)
    requires first in history && second in history && first != second
    ensures Permuted(history, q) && |q| > 1 && q[|q| - 2] == first && q[|q| - 1] == second
  {
    var p := DeliverLast(history, first);
    PermutedRows(history, p);
    q := DeliverLast(p, second);
  }

  lemma DecidesAtEnd(p: seq<Row>, k: Key, i: int)
    requires 0 <= i < |p| && (TopAdd(p, k, p[i]) || TopRemove(p, k, p[i]))
    requires forall j :: i < j < |p| ==> !Matches(p[j], k)
    ensures k in Replay(InOrder(p)) <==> IsAdd(p[i])
  {
    assert Decides(p, k, i);
    ActiveAt(p, k, i);
  }

  lemma TieGoesEitherWay(history: seq<Row>, k: Key) returns (p: seq<Row>, q: seq<Row>)
    requires MixedTie(history, k)
    ensures Permuted(history, p) && k in Replay(InOrder(p))
    ensures Permuted(history, q) && k !in Replay(InOrder(q))
  {
    var add :| add in history && TopAdd(history, k, add);
    var remove :| remove in history && TopRemove(history, k, remove);
    p := DeliverLast(history, add);
    q := DeliverLast(history, remove);
    PermutedRows(history, p);
    PermutedRows(history, q);
    DecidesAtEnd(p, k, |p| - 1);
    DecidesAtEnd(q, k, |q| - 1);
  }

  /** Delivery order never matters for the active keys exactly when no key has a mixed tie. */
  lemma KeysOrderExact(history: seq<Row>)
    ensures (forall p :: Permuted(history, p) ==> Replay(InOrder(p)) == Replay(InOrder(history)))
       <==> forall k :: !MixedTie(history, k)
  {
    if k :| MixedTie(history, k) {
      var p, q := TieGoesEitherWay(history, k);
      assert Replay(InOrder(p)) != Replay(InOrder(q));
    } else {
      forall p | Permuted(history, p) ensures Replay(InOrder(p)) == Replay(InOrder(history)) {
        PermutedRows(history, p);
        forall k ensures k in Replay(InOrder(p)) <==> k in Replay(InOrder(history)) {
          assert !MixedTie(history, k);
          TopsSameRows(history, p, k);
          ActiveBounds(history, k);
          ActiveBounds(p, k);
        }
      }
    }
  }

  lemma LaneUniqueNoTie(history: seq<Row>, k: Key)
    requires LaneUnique(history)
    ensures !MixedTie(history, k)
  {
    if MixedTie(history, k) {
      var add :| add in history && TopAdd(history, k, add);
      var remove :| remove in history && TopRemove(history, k, remove);
      LaneUniqueAgree(history, add, remove, k);
      assert false;
    }
  }

  /** A key stays active exactly when its highest-sequence event is an add. */
  lemma ActiveExact(history: seq<Row>, k: Key)
    requires LaneUnique(history)
    ensures k in Replay(InOrder(history)) <==> Live(history, k)
  {
    LaneUniqueNoTie(history, k);
    ActiveBounds(history, k);
  }

  /** A label is listed exactly when it is live in some privacy lane. */
  lemma ProjectedExact(history: seq<Row>, s: LabelState)
    requires LaneUnique(history)
    ensures s in Projected(history)
            <==> exists lane: Privacy :: Live(history, Key(s.artifactId, s.name, lane))
  {
    ProjectedKeys(history, s);
    forall lane: Privacy
      ensures Key(s.artifactId, s.name, lane) in Replay(InOrder(history))
         <==> Live(history, Key(s.artifactId, s.name, lane))
    {
      ActiveExact(history, Key(s.artifactId, s.name, lane));
    }
  }

  lemma ProjectedKeys(history: seq<Row>, s: LabelState)
    ensures s in Projected(history)
       <==> exists lane: Privacy :: Key(s.artifactId, s.name, lane) in Replay(InOrder(history))
  {
    if lane: Privacy :| Key(s.artifactId, s.name, lane) in Replay(InOrder(history)) {
      assert StateOf(Key(s.artifactId, s.name, lane)) == s;
    }
    if s in Projected(history) {
      var k :| k in Replay(InOrder(history)) && StateOf(k) == s;
      assert k == Key(s.artifactId, s.name, k.privacy);
    }
  }

  /** Live in a lane where no remove ties with the latest add. */
  ghost predicate SurelyLive(history: seq<Row>, s: LabelState, lane: Privacy) {
    var k := Key(s.artifactId, s.name, lane);
    Live(history, k) && !Dropped(history, k)
  }

  ghost predicate Tied(history: seq<Row>, s: LabelState, lane: Privacy) {
    MixedTie(history, Key(s.artifactId, s.name, lane))
  }

  /** A mixed tie shows unless the label is surely live in some lane anyway. */
  ghost predicate Masked(history: seq<Row>, s: LabelState) {
    (exists lane: Privacy :: Tied(history, s, lane)) ==> exists lane: Privacy :: SurelyLive(history, s, lane)
  }

  /** A masked label is listed in every delivery or in none. */
  lemma MaskedSettled(history: seq<Row>, p: seq<Row>, s: LabelState)
    requires Permuted(history, p) && Masked(history, s)
    ensures s in Projected(p) <==> exists lane: Privacy :: SurelyLive(history, s, lane)
  {
    PermutedRows(history, p);
    ProjectedKeys(p, s);
    forall lane: Privacy
      ensures SurelyLive(history, s, lane) ==> Key(s.artifactId, s.name, lane) in Replay(InOrder(p))
      ensures Key(s.artifactId, s.name, lane) in Replay(InOrder(p)) ==>
        SurelyLive(history, s, lane) || Tied(history, s, lane)
    {
      TopsSameRows(history, p, Key(s.artifactId, s.name, lane));
      ActiveBounds(p, Key(s.artifactId, s.name, lane));
    }
  }

  function Other(lane: Privacy): Privacy {
    if lane.OwnerOnly? then ShareSafe else OwnerOnly
  }

  lemma TopRemoveSameRows(a: seq<Row>, b: seq<Row>, k: Key, row: Row)
    requires Permuted(a, b) && TopRemove(a, k, row)
    ensures TopRemove(b, k, row) && (row in a <==> row in b)
  {
    PermutedRows(a, b);
  }

  lemma NotListed(history: seq<Row>, s: LabelState, lane: Privacy)
    requires Key(s.artifactId, s.name, lane) !in Replay(InOrder(history))
    requires Key(s.artifactId, s.name, Other(lane)) !in Replay(InOrder(history))
    ensures s !in Projected(history)
  {
    ProjectedLanes(history, s);
  }

  lemma RemovedAtEnd(q: seq<Row>, k: Key, i: nat)
    requires i < |q| && TopRemove(q, k, q[i]) && (i + 1 < |q| ==> i + 2 == |q| && !Matches(q[i + 1], k))
    ensures k !in Replay(InOrder(q))
  {
    forall j | i < j < |q| ensures !Matches(q[j], k) {
      assert j == i + 1;
    }
    DecidesAtEnd(q, k, i);
  }

  lemma EndRemoves(q: seq<Row>, s: LabelState)
    requires |q| > 1
    requires TopRemove(q, Key(s.artifactId, s.name, OwnerOnly), q[|q| - 2])
    requires TopRemove(q, Key(s.artifactId, s.name, ShareSafe), q[|q| - 1])
    ensures s !in Projected(q)
  {
    RemovedAtEnd(q, Key(s.artifactId, s.name, OwnerOnly), |q| - 2);
    RemovedAtEnd(q, Key(s.artifactId, s.name, ShareSafe), |q| - 1);
    NotListed(q, s, OwnerOnly);
  }

  lemma UnlistedBoth(history: seq<Row>, s: LabelState) returns (q: seq<Row>)
    requires Dropped(history, Key(s.artifactId, s.name, OwnerOnly))
    requires Dropped(history, Key(s.artifactId, s.name, ShareSafe))
    ensures Permuted(history, q) && s !in Projected(q)
  {
    var k, k' := Key(s.artifactId, s.name, OwnerOnly), Key(s.artifactId, s.name, ShareSafe);
    var remove :| remove in history && TopRemove(history, k, remove);
    var remove' :| remove' in history && TopRemove(history, k', remove');
    q := DeliverTwoLast(history, remove, remove');
    TopRemoveSameRows(history, q, k, remove);
    TopRemoveSameRows(history, q, k', remove');
    EndRemoves(q, s);
  }

  lemma UnlistedOne(history: seq<Row>, s: LabelState, lane: Privacy) returns (q: seq<Row>)
    requires Dropped(history, Key(s.artifactId, s.name, lane))
    requires !Live(history, Key(s.artifactId, s.name, Other(lane)))
    ensures Permuted(history, q) && s !in Projected(q)
  {
    var k, k' := Key(s.artifactId, s.name, lane), Key(s.artifactId, s.name, Other(lane));
    var remove :| remove in history && TopRemove(history, k, remove);
    q := DeliverLast(history, remove);
    TopRemoveSameRows(history, q, k, remove);
    RemovedAtEnd(q, k, |q| - 1);
    PermutedRows(history, q);
    TopsSameRows(history, q, k');
    ActiveBounds(q, k');
    NotListed(q, s, lane);
  }

  /** Delivering the removes of every tied lane last takes an unmasked label off the list. */
  lemma UnlistedDelivery(history: seq<Row>, s: LabelState, lane: Privacy) returns (q: seq<Row>)
    requires Tied(history, s, lane) && !Masked(history, s)
    ensures Permuted(history, q) && s !in Projected(q)
  {
    assert !SurelyLive(history, s, Other(lane));
    if Live(history, Key(s.artifactId, s.name, Other(lane))) {
      q := UnlistedBoth(history, s);
    } else {
      q := UnlistedOne(history, s, lane);
    }
  }

  /**
   Delivery order never matters for the listed labels exactly when every label
   with a mixed tie in one lane is surely live in some lane.
   */
  lemma OrderExact(history: seq<Row>)
    ensures (forall p :: Permuted(history, p) ==> Projected(p) == Projected(history))
       <==> forall s :: Masked(history, s)
  {
    if s :| !Masked(history, s) {
      var lane :| Tied(history, s, lane);
      var p, _ := TieGoesEitherWay(history, Key(s.artifactId, s.name, lane));
      var q := UnlistedDelivery(history, s, lane);
      ProjectedKeys(p, s);
      assert Projected(p) != Projected(q);
    } else {
      forall p | Permuted(history, p) ensures Projected(p) == Projected(history) {
        forall s ensures s in Projected(p) <==> s in Projected(history) {
          assert Masked(history, s);
          MaskedSettled(history, p, s);
          MaskedSettled(history, history, s);
        }
      }
    }
  }

  /** The projection of a lane-unique history does not depend on the order in which rows are delivered. */
  lemma OrderIrrelevant(a: seq<Row>, b: seq<Row>)
    requires LaneUnique(a) && multiset(a) == multiset(b)
    ensures Projected(a) == Projected(b)
  {
    forall s ensures Masked(a, s) {
      forall lane: Privacy ensures !Tied(a, s, lane) {
        LaneUniqueNoTie(a, Key(s.artifactId, s.name, lane));
      }
    }
    OrderExact(a);
    assert Permuted(a, b);
  }

  /** Without lane-unique sequences delivery order does decide the projection. */
  lemma OrderMattersOnTies()
    ensures var add := Row("a", ShareSafe, Some(LabelEvent("x", Add, 1)));
            var remove := Row("a", ShareSafe, Some(LabelEvent("x", Remove, 1)));
            Projected([add, remove]) != Projected([remove, add])
  {
    var add := Row("a", ShareSafe, Some(LabelEvent("x", Add, 1)));
    var remove := Row("a", ShareSafe, Some(LabelEvent("x", Remove, 1)));
    TwoRows(add, remove);
    TwoRows(remove, add);
    assert [add, remove][..1] == [add] && [remove, add][..1] == [remove] && [add][..0] == [] && [remove][..0] == [];
    assert Replay([add]) == {KeyOf(add)};
    assert Replay([add, remove]) == {};
    assert KeyOf(add) in Replay([remove, add]);
    assert StateOf(KeyOf(add)) in Projected([remove, add]);
    assert StateOf(KeyOf(add)) !in Projected([add, remove]);
  }

  lemma TwoRows(a: Row, b: Row)
    requires a.event.Some? && b.event.Some? && a.event.value.sequence == b.event.value.sequence
    ensures InOrder([a, b]) == [a, b]
  {
    assert [a, b][1..] == [b] && [b][1..] == [];
    assert Events([b]) == [b];
    assert Events([a, b]) == [a, b];
    assert Sort([b], Earlier) == [b];
  }

  // ----- privacy lanes ------------------------------------------------------------------

  function InLane(history: seq<Row>, lane: Privacy): (r: seq<Row>)
    ensures forall row :: row in r <==> row in history && row.privacy == lane
  {
    if history == [] then []
    else (if history[0].privacy == lane then [history[0]] else []) + InLane(history[1..], lane)
  }

  /** Whether a key is active is decided by its own lane: events of the other lane never change it. */
  lemma {:induction false} LaneDecidesAlone(history: seq<Row>, lane: Privacy, k: Key)
    ensures k in Replay(InOrder(InLane(history, lane))) <==> k.privacy == lane && k in Replay(InOrder(history))
  {
    if history != [] {
      var x, rest := history[0], history[1..];
      assert history == [x] + rest;
      LaneDecidesAlone(rest, lane, k);
      FirstRow(x, rest, k);
      if x.privacy == lane {
        FirstRow(x, InLane(rest, lane), k);
        if Matches(x, k) { LaterInLane(rest, lane, k, x); }
      } else {
        assert InLane(history, lane) == InLane(rest, lane);
      }
    }
  }

  lemma LaterInLane(history: seq<Row>, lane: Privacy, k: Key, x: Row)
    requires k.privacy == lane && x.event.Some?
    ensures HasLater(InLane(history, lane), k, x) <==> HasLater(history, k, x)
  {
  }

  /** The label's key in this lane is active. */
  ghost predicate ActiveIn(history: seq<Row>, s: LabelState, lane: Privacy) {
    Key(s.artifactId, s.name, lane) in Replay(InOrder(history))
  }

  lemma ProjectedLanes(history: seq<Row>, s: LabelState)
    ensures s in Projected(history) <==> ActiveIn(history, s, OwnerOnly) || ActiveIn(history, s, ShareSafe)
  {
    ProjectedKeys(history, s);
    if lane: Privacy :| Key(s.artifactId, s.name, lane) in Replay(InOrder(history)) {
      assert ActiveIn(history, s, lane);
      assert lane == OwnerOnly || lane == ShareSafe;
    }
  }

  lemma ActiveInLane(history: seq<Row>, s: LabelState, lane: Privacy, other: Privacy)
    ensures ActiveIn(InLane(history, lane), s, other) <==> other == lane && ActiveIn(history, s, lane)
  {
    LaneDecidesAlone(history, lane, Key(s.artifactId, s.name, other));
  }

  /** One lane's projection lists the labels whose key in that lane is active in the full history. */
  lemma LaneLists(history: seq<Row>, lane: Privacy, s: LabelState)
    ensures s in Projected(InLane(history, lane)) <==> ActiveIn(history, s, lane)
  {
    ProjectedLanes(InLane(history, lane), s);
    ActiveInLane(history, s, lane, OwnerOnly);
    ActiveInLane(history, s, lane, ShareSafe);
  }

  /** Lanes never cancel each other: the full projection is the union of the lane projections. */
  lemma LanesUnite(history: seq<Row>)
    ensures Projected(history)
            == Projected(InLane(history, OwnerOnly)) + Projected(InLane(history, ShareSafe))
  {
    forall s ensures s in Projected(history)
      <==> s in Projected(InLane(history, OwnerOnly)) || s in Projected(InLane(history, ShareSafe))
    {
      ProjectedLanes(history, s);
      LaneLists(history, OwnerOnly, s);
      LaneLists(history, ShareSafe, s);
    }
  }

  /** In a lane-unique history one lane's projection lists exactly the labels live in that lane. */
  lemma LaneProjection(history: seq<Row>, lane: Privacy, s: LabelState)
    requires LaneUnique(history)
    ensures s in Projected(InLane(history, lane)) <==> Live(history, Key(s.artifactId, s.name, lane))
  {
    LaneLists(history, lane, s);
    ActiveExact(history, Key(s.artifactId, s.name, lane));
  }

  // ----- appending ------------------------------------------------------------------------

  /** A row whose sequence exceeds every sequence recorded in its artifact's lane. */
  ghost predicate AboveLane(history: seq<Row>, row: Row) {
    && row.event.Some?
    && forall other | other in history && SameLane(other, row) ::
         other.event.value.sequence < row.event.value.sequence
  }

  lemma AppendKeepsUnique(history: seq<Row>, row: Row)
    requires LaneUnique(history) && (row.event.Some? ==> AboveLane(history, row))
    ensures LaneUnique(history + [row])
  {
    assert forall i :: 0 <= i < |history| ==> history[i] in history;
  }

  lemma DecidesSnoc(history: seq<Row>, row: Row, k: Key, i: int)
    requires Decides(history, k, i) && !Matches(row, k)
    ensures Decides(history + [row], k, i)
  {
    var next := history + [row];
    assert forall j :: 0 <= j < |history| ==> next[j] == history[j];
    assert forall other :: other in next <==> other in history || other == row;
  }

  /** A row of another key leaves a key alone. */
  lemma AppendOther(history: seq<Row>, row: Row, k: Key)
    requires !Matches(row, k)
    ensures k in Replay(InOrder(history + [row])) <==> k in Replay(InOrder(history))
  {
    var i := DecidedByLast(history, k);
    if i >= 0 {
      DecidesSnoc(history, row, k, i);
      ActiveAt(history + [row], k, i);
    } else {
      var j := DecidedByLast(history + [row], k);
      assert !HasMatch(history + [row], k);
    }
  }

  /** A row above its lane decides its key. */
  lemma AppendDecides(history: seq<Row>, row: Row)
    requires AboveLane(history, row)
    ensures KeyOf(row) in Replay(InOrder(history + [row])) <==> IsAdd(row)
  {
    var next, k := history + [row], KeyOf(row);
    assert forall other :: other in next <==> other in history || other == row;
    assert next[|history|] == row;
    assert Decides(next, k, |history|);
    ActiveAt(next, k, |history|);
  }

  /**
   Appending above the lane's maximum inserts or deletes exactly that label in
   that lane, and leaves every other label and the other lane alone.
   */
  lemma AppendIsSetUpdate(history: seq<Row>, row: Row, lane: Privacy, s: LabelState)
    requires AboveLane(history, row)
    ensures s in Projected(InLane(history + [row], lane))
            <==> if lane == row.privacy && s == LabelState(row.artifactId, row.event.value.name)
                 then row.event.value.operation.Add?
                 else s in Projected(InLane(history, lane))
  {
    var k := Key(s.artifactId, s.name, lane);
    LaneLists(history, lane, s);
    LaneLists(history + [row], lane, s);
    if Matches(row, k) {
      AppendDecides(history, row);
    } else {
      AppendOther(history, row, k);
    }
  }
}
