/**
 The order of the activity feed and paging through it with cursors, over a
 fixed set of rows and over one that grows between pages.
 */
module ActivityFeed {
  import opened Wrappers
  import opened Ordering

  /** The part of an activity row the order looks at; a cursor carries the same four fields. */
  datatype Row = Row(occurredAt: string, investigationId: string, tieBreak: nat, activityId: string)

  /** `localeCompare` on the fixed alphabets of timestamps, UUIDs and digests. */
  type Collation = (string, string) -> int

  ghost predicate IsCollation(cmp: Collation) {
    && (forall a, b :: cmp(a, b) == 0 <==> a == b)
    && (forall a, b :: cmp(a, b) < 0 <==> cmp(b, a) > 0)
    && (forall a, b, c {:trigger cmp(a, b), cmp(b, c)} :: cmp(a, b) < 0 && cmp(b, c) < 0 ==> cmp(a, c) < 0)
  }

  /** Newest first, then by investigation, then highest sequence first, then by activity id. */
  function Compare(cmp: Collation, left: Row, right: Row): int {
    var byTime := cmp(right.occurredAt, left.occurredAt);
    if byTime != 0 then byTime
    else
      var byCase := cmp(left.investigationId, right.investigationId);
      if byCase != 0 then byCase
      else if right.tieBreak != left.tieBreak then right.tieBreak - left.tieBreak
      else cmp(left.activityId, right.activityId)
  }

  predicate IsAfterCursor(cmp: Collation, row: Row, cursor: Row) {
    Compare(cmp, row, cursor) > 0
  }

  function Before(cmp: Collation): (Row, Row) -> bool {
    (a, b) => Compare(cmp, a, b) < 0
  }

  lemma CompareTransitive(cmp: Collation, a: Row, b: Row, c: Row)
    requires IsCollation(cmp) && Compare(cmp, a, b) < 0 && Compare(cmp, b, c) < 0
    ensures Compare(cmp, a, c) < 0
  {
  }

  lemma CompareTotal(cmp: Collation, a: Row, b: Row)
    requires IsCollation(cmp)
    ensures Compare(cmp, a, b) == 0 <==> a == b
    ensures Compare(cmp, a, b) < 0 <==> Compare(cmp, b, a) > 0
  {
  }

  /** The comparator orders distinct rows strictly and totally. */
  lemma BeforeStrictTotal(cmp: Collation)
    requires IsCollation(cmp)
    ensures StrictTotal(Before(cmp))
  {
    var lt := Before(cmp);
    forall a, b, c | lt(a, b) && lt(b, c) ensures lt(a, c) {
      CompareTransitive(cmp, a, b, c);
    }
    forall a, b ensures !lt(a, a) && (a != b ==> lt(a, b) || lt(b, a)) {
      CompareTotal(cmp, a, b);
      CompareTotal(cmp, a, a);
    }
  }

  // ----- the order on the fields -------------------------------------------------------------

  /**
   `later` is shown below `first`: it is older; or as old, of a later
   investigation; or of the same one with a lower sequence; or with the same
   sequence and a later activity id.
   */
  ghost predicate ShownBelow(cmp: Collation, first: Row, later: Row) {
    || cmp(later.occurredAt, first.occurredAt) < 0
    || (&& later.occurredAt == first.occurredAt
        && (|| cmp(first.investigationId, later.investigationId) < 0
            || (&& later.investigationId == first.investigationId
                && (|| later.tieBreak < first.tieBreak
                    || (later.tieBreak == first.tieBreak && cmp(first.activityId, later.activityId) < 0)))))
  }

  lemma CompareFields(cmp: Collation, first: Row, later: Row)
    requires IsCollation(cmp)
    ensures Compare(cmp, first, later) < 0 <==> ShownBelow(cmp, first, later)
  {
  }

  /** A row comes after a cursor exactly when it is shown below the row the cursor was made from. */
  lemma AfterCursorExact(cmp: Collation, row: Row, cursor: Row)
    requires IsCollation(cmp)
    ensures IsAfterCursor(cmp, row, cursor) <==> ShownBelow(cmp, cursor, row)
  {
    CompareTotal(cmp, row, cursor);
    CompareFields(cmp, cursor, row);
  }

  // ----- one page ----------------------------------------------------------------------------

  datatype Page = Page(items: seq<Row>, next: Option<Row>)

  ghost function Following(cmp: Collation, rows: set<Row>, cursor: Option<Row>): set<Row> {
    set row | row in rows && (cursor.Some? ==> IsAfterCursor(cmp, row, cursor.value))
  }

  ghost function Ordered(cmp: Collation, rows: set<Row>, cursor: Option<Row>): (r: seq<Row>)
    requires IsCollation(cmp)
    ensures Ascending(r, Before(cmp)) && |r| == |Following(cmp, rows, cursor)|
    ensures forall row :: row in r <==> row in Following(cmp, rows, cursor)
  {
    BeforeStrictTotal(cmp);
    var r := Listing(Following(cmp, rows, cursor), Before(cmp));
    assert forall row :: row in r <==> row in Elements(r);
    r
  }

  /** listPage: a cursor whose row is gone is stale; a next cursor is offered only when rows remain. */
  ghost function ListPage(cmp: Collation, rows: set<Row>, cursor: Option<Row>, limit: nat): Result<Page>
    requires IsCollation(cmp) && limit >= 1
  {
    if cursor.Some? && cursor.value !in rows then Err("stale_cursor")
    else
      var following := Ordered(cmp, rows, cursor);
      if |following| > limit then Ok(Page(following[..limit], Some(following[limit - 1])))
      else Ok(Page(following, None))
  }

  // ----- a walk through the pages ---------------------------------------------------------------

  datatype Outcome = Finished | Stale | OutOfRequests
  datatype Walk = Walk(delivered: seq<Row>, outcome: Outcome)

  /** Each request sees the feed as it is at that moment; the walk ends without a next cursor or on an error. */
  ghost function WalkFrom(cmp: Collation, feeds: seq<set<Row>>, cursor: Option<Row>, limit: nat): Walk
    requires IsCollation(cmp) && limit >= 1
    decreases |feeds|
  {
    if feeds == [] then Walk([], OutOfRequests)
    else
      match ListPage(cmp, feeds[0], cursor, limit)
      case Err(_) => Walk([], Stale)
      case Ok(page) =>
        if page.next.None? then Walk(page.items, Finished)
        else
          var rest := WalkFrom(cmp, feeds[1..], page.next, limit);
          Walk(page.items + rest.delivered, rest.outcome)
  }

  /** Every row of a page lies after the cursor and none lies after the next cursor. */
  lemma PageBounds(cmp: Collation, rows: set<Row>, cursor: Option<Row>, limit: nat)
    requires IsCollation(cmp) && limit >= 1 && ListPage(cmp, rows, cursor, limit).Ok?
    ensures var page := ListPage(cmp, rows, cursor, limit).value;
            && Ascending(page.items, Before(cmp))
            && (forall row :: row in page.items ==> row in Following(cmp, rows, cursor))
            && (page.next.Some? ==> page.next.value in page.items && forall row :: row in page.items ==>
                  row == page.next.value || Before(cmp)(row, page.next.value))
  {
    var following := Ordered(cmp, rows, cursor);
    if |following| > limit {
      var items := following[..limit];
      assert items[limit - 1] == following[limit - 1];
      forall row | row in items ensures row in following && (row == following[limit - 1] || Before(cmp)(row, following[limit - 1])) {
        var i :| 0 <= i < limit && items[i] == row;
        assert following[i] == row;
      }
    }
  }

  lemma ConcatAscending(a: seq<Row>, b: seq<Row>, lt: (Row, Row) -> bool)
    requires Ascending(a, lt) && Ascending(b, lt)
    requires forall x, y :: x in a && y in b ==> lt(x, y)
    ensures Ascending(a + b, lt)
  {
    var r := a + b;
    forall i, j | 0 <= i < j < |r| ensures lt(r[i], r[j]) {
      if j < |a| {
        assert r[i] == a[i] && r[j] == a[j];
      } else if i >= |a| {
        assert r[i] == b[i - |a|] && r[j] == b[j - |a|];
      } else {
        assert r[i] in a && r[j] == b[j - |a|] && b[j - |a|] in b;
      }
    }
  }

  /** However the feed changes between pages, what is delivered is strictly ascending: nothing repeats. */
  lemma {:induction false} NothingRepeats(cmp: Collation, feeds: seq<set<Row>>, cursor: Option<Row>, limit: nat)
    requires IsCollation(cmp) && limit >= 1
    ensures var delivered := WalkFrom(cmp, feeds, cursor, limit).delivered;
            && Ascending(delivered, Before(cmp))
            && (cursor.Some? ==> forall row :: row in delivered ==> IsAfterCursor(cmp, row, cursor.value))
    decreases |feeds|
  {
    if feeds != [] && ListPage(cmp, feeds[0], cursor, limit).Ok? {
      var page := ListPage(cmp, feeds[0], cursor, limit).value;
      PageBounds(cmp, feeds[0], cursor, limit);
      if page.next.Some? {
        var rest := WalkFrom(cmp, feeds[1..], page.next, limit).delivered;
        NothingRepeats(cmp, feeds[1..], page.next, limit);
        forall x, y | x in page.items && y in rest
          ensures Before(cmp)(x, y) && (cursor.Some? ==> IsAfterCursor(cmp, y, cursor.value))
        {
          AfterChain(cmp, cursor, x, page.next.value, y);
        }
        ConcatAscending(page.items, rest, Before(cmp));
        assert page.next.value in page.items;
      }
    }
  }

  /**
   Every walk is delivered newest first; among equal times by investigation; within
   one investigation from the highest sequence down; and then by activity id.
   */
  lemma DeliveredInFeedOrder(cmp: Collation, feeds: seq<set<Row>>, cursor: Option<Row>, limit: nat, i: nat, j: nat)
    requires IsCollation(cmp) && limit >= 1
    requires i < j < |WalkFrom(cmp, feeds, cursor, limit).delivered|
    ensures var delivered := WalkFrom(cmp, feeds, cursor, limit).delivered;
            var a, b := delivered[i], delivered[j];
            && cmp(a.occurredAt, b.occurredAt) >= 0
            && (a.occurredAt == b.occurredAt ==> cmp(a.investigationId, b.investigationId) <= 0)
            && (a.occurredAt == b.occurredAt && a.investigationId == b.investigationId ==> a.tieBreak >= b.tieBreak)
            && (a.occurredAt == b.occurredAt && a.investigationId == b.investigationId && a.tieBreak == b.tieBreak ==>
                  cmp(a.activityId, b.activityId) < 0)
  {
    NothingRepeats(cmp, feeds, cursor, limit);
    var delivered := WalkFrom(cmp, feeds, cursor, limit).delivered;
    assert Before(cmp)(delivered[i], delivered[j]);
    CompareFields(cmp, delivered[i], delivered[j]);
  }

  /** What may be asked for: the rows not above or at the cursor. */
  ghost predicate IsDue(cmp: Collation, rows: set<Row>, cursor: Option<Row>, row: Row) {
    row in rows && (cursor.Some? ==> ShownBelow(cmp, cursor.value, row))
  }

  /**
   A request fails exactly on a cursor whose row is gone.  Otherwise the page holds
   the due rows shown first, as many as asked for if there are that many, and offers
   its last row as the next cursor exactly when more are due.
   */
  lemma PageExact(cmp: Collation, rows: set<Row>, cursor: Option<Row>, limit: nat)
    requires IsCollation(cmp) && limit >= 1
    ensures ListPage(cmp, rows, cursor, limit).Err? <==> cursor.Some? && cursor.value !in rows
    ensures ListPage(cmp, rows, cursor, limit).Ok? ==>
      var page := ListPage(cmp, rows, cursor, limit).value;
      && |page.items| <= limit
      && (forall row :: row in page.items ==> IsDue(cmp, rows, cursor, row))
      && (forall row, item :: IsDue(cmp, rows, cursor, row) && row !in page.items && item in page.items ==>
            ShownBelow(cmp, item, row))
      && (page.next.Some? <==> exists row :: IsDue(cmp, rows, cursor, row) && row !in page.items)
      && (page.next.Some? ==> |page.items| == limit && page.next.value == page.items[limit - 1])
  {
    if ListPage(cmp, rows, cursor, limit).Ok? {
      var page, following := ListPage(cmp, rows, cursor, limit).value, Ordered(cmp, rows, cursor);
      forall row ensures row in following <==> IsDue(cmp, rows, cursor, row) {
        if cursor.Some? { AfterCursorExact(cmp, row, cursor.value); }
      }
      PageOfOrdered(cmp, following, limit);
      if |following| > limit {
        assert following[limit] in following;
      }
    }
  }

  lemma PageOfOrdered(cmp: Collation, following: seq<Row>, limit: nat)
    requires IsCollation(cmp) && Ascending(following, Before(cmp))
    ensures var items := if |following| > limit then following[..limit] else following;
            && (forall row :: row in items ==> row in following)
            && (forall row, item :: row in following && row !in items && item in items ==> ShownBelow(cmp, item, row))
            && (|following| > limit ==> following[limit] !in items)
  {
    var items := if |following| > limit then following[..limit] else following;
    forall row, item | row in following && row !in items && item in items ensures ShownBelow(cmp, item, row) {
      var j :| 0 <= j < |following| && following[j] == row;
      var i :| 0 <= i < |items| && items[i] == item;
      forall k | 0 <= k < |items| ensures following[k] != row {
        assert items[k] in items && following[k] == items[k];
      }
      assert following[i] == item && Before(cmp)(following[i], following[j]);
      CompareFields(cmp, item, row);
    }
    if |following| > limit {
      forall i | 0 <= i < limit ensures items[i] != following[limit] {
        assert Before(cmp)(following[i], following[limit]);
        CompareTotal(cmp, following[i], following[limit]);
      }
    }
  }

  lemma AfterChain(cmp: Collation, cursor: Option<Row>, x: Row, next: Row, y: Row)
    requires IsCollation(cmp)
    requires cursor.Some? ==> IsAfterCursor(cmp, x, cursor.value)
    requires x == next || Before(cmp)(x, next)
    requires IsAfterCursor(cmp, y, next)
    ensures Before(cmp)(x, y)
    ensures cursor.Some? ==> IsAfterCursor(cmp, y, cursor.value)
  {
    CompareTotal(cmp, y, next);
    if x != next { CompareTransitive(cmp, x, next, y); }
    if cursor.Some? {
      CompareTotal(cmp, x, cursor.value);
      CompareTransitive(cmp, cursor.value, x, y);
      CompareTotal(cmp, y, cursor.value);
    }
  }

  /** A feed that only grows between requests. */
  ghost predicate Growing(feeds: seq<set<Row>>) {
    forall i, j :: 0 <= i <= j < |feeds| ==> feeds[i] <= feeds[j]
  }

  /** A page delivers every following row up to its next cursor. */
  lemma PageCovers(cmp: Collation, rows: set<Row>, cursor: Option<Row>, limit: nat, row: Row)
    requires IsCollation(cmp) && limit >= 1 && ListPage(cmp, rows, cursor, limit).Ok?
    requires row in Following(cmp, rows, cursor)
    ensures var page := ListPage(cmp, rows, cursor, limit).value;
            row in page.items || (page.next.Some? && IsAfterCursor(cmp, row, page.next.value))
  {
    var following := Ordered(cmp, rows, cursor);
    var i :| 0 <= i < |following| && following[i] == row;
    if |following| > limit {
      if i < limit {
        assert following[..limit][i] == row;
      } else {
        assert Before(cmp)(following[limit - 1], following[i]);
        CompareTotal(cmp, following[limit - 1], following[i]);
      }
    }
  }

  /** While the feed only grows, a finished walk has delivered every row that was there at its start. */
  lemma {:induction false} NothingSkipped(
    cmp: Collation, feeds: seq<set<Row>>, cursor: Option<Row>, limit: nat, row: Row)
    requires IsCollation(cmp) && limit >= 1 && Growing(feeds)
    requires feeds != [] && row in Following(cmp, feeds[0], cursor)
    requires WalkFrom(cmp, feeds, cursor, limit).outcome == Finished
    ensures row in WalkFrom(cmp, feeds, cursor, limit).delivered
    decreases |feeds|
  {
    var page := ListPage(cmp, feeds[0], cursor, limit).value;
    PageCovers(cmp, feeds[0], cursor, limit, row);
    if page.next.Some? && row !in page.items {
      assert feeds[1..] != [];
      assert feeds[0] <= feeds[1] && feeds[1..][0] == feeds[1];
      NothingSkipped(cmp, feeds[1..], page.next, limit, row);
    }
  }

  /** While the feed only grows no cursor goes stale. */
  lemma {:induction false} NeverStale(cmp: Collation, feeds: seq<set<Row>>, cursor: Option<Row>, limit: nat)
    requires IsCollation(cmp) && limit >= 1 && Growing(feeds)
    requires feeds != [] && cursor.Some? ==> cursor.value in feeds[0]
    ensures WalkFrom(cmp, feeds, cursor, limit).outcome != Stale
    decreases |feeds|
  {
    if feeds != [] {
      var page := ListPage(cmp, feeds[0], cursor, limit).value;
      PageBounds(cmp, feeds[0], cursor, limit);
      if page.next.Some? {
        assert page.next.value in feeds[0];
        assert |feeds| > 1 ==> feeds[0] <= feeds[1] && feeds[1..][0] == feeds[1];
        NeverStale(cmp, feeds[1..], page.next, limit);
      }
    }
  }

  /** On a fixed feed the walk finishes and delivers exactly the following rows, once each and in order. */
  lemma {:induction false} FixedFeedWalk(
    cmp: Collation, rows: set<Row>, feeds: seq<set<Row>>, cursor: Option<Row>, limit: nat)
    requires IsCollation(cmp) && limit >= 1
    requires cursor.Some? ==> cursor.value in rows
    requires forall i :: 0 <= i < |feeds| ==> feeds[i] == rows
    requires |feeds| > |Following(cmp, rows, cursor)|
    ensures WalkFrom(cmp, feeds, cursor, limit) == Walk(Ordered(cmp, rows, cursor), Finished)
    decreases |feeds|
  {
    var following := Ordered(cmp, rows, cursor);
    var page := ListPage(cmp, feeds[0], cursor, limit).value;
    if page.next.Some? {
      RestAfterPage(cmp, rows, cursor, limit);
      assert page.next.value in following;
      FixedFeedWalk(cmp, rows, feeds[1..], page.next, limit);
      JoinHalves(following, limit);
    }
  }

  lemma JoinHalves(s: seq<Row>, n: nat)
    requires n <= |s|
    ensures s[..n] + s[n..] == s
  {
  }

  lemma RestAfterPage(cmp: Collation, rows: set<Row>, cursor: Option<Row>, limit: nat)
    requires IsCollation(cmp) && limit >= 1
    requires |Ordered(cmp, rows, cursor)| > limit
    ensures var following := Ordered(cmp, rows, cursor);
            Ordered(cmp, rows, Some(following[limit - 1])) == following[limit..]
  {
    var following := Ordered(cmp, rows, cursor);
    var next := following[limit - 1];
    var rest, tail := Ordered(cmp, rows, Some(next)), following[limit..];
    assert forall i :: 0 <= i < |tail| ==> tail[i] == following[limit + i];
    forall row ensures row in rest <==> row in tail {
      if row in tail {
        var i :| 0 <= i < |tail| && tail[i] == row;
        assert Before(cmp)(next, following[limit + i]) && following[limit + i] in following;
        CompareTotal(cmp, next, row);
      }
      if row in rest {
        RestIsTail(cmp, rows, cursor, limit, row);
      }
    }
    BeforeStrictTotal(cmp);
    SameElements(rest, tail);
    AscendingUnique(rest, tail, Before(cmp));
  }

  lemma RestIsTail(cmp: Collation, rows: set<Row>, cursor: Option<Row>, limit: nat, row: Row)
    requires IsCollation(cmp) && limit >= 1
    requires |Ordered(cmp, rows, cursor)| > limit
    requires row in rows && IsAfterCursor(cmp, row, Ordered(cmp, rows, cursor)[limit - 1])
    ensures row in Ordered(cmp, rows, cursor)[limit..]
  {
    var following := Ordered(cmp, rows, cursor);
    var next := following[limit - 1];
    assert next in following;
    AfterChain(cmp, cursor, next, next, row);
    assert row in following;
    forall k | 0 <= k < limit ensures !IsAfterCursor(cmp, following[k], next) {
      assert k == limit - 1 || Before(cmp)(following[k], following[limit - 1]);
      CompareTotal(cmp, following[k], next);
    }
    var i :| 0 <= i < |following| && following[i] == row;
    assert following[limit..][i - limit] == row;
  }
}
