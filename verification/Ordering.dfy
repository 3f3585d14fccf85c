/**
 Strict total orders and their sorted enumerations.  A strictly ascending
 sequence is determined by its set of elements, which is what makes a sorted
 wire form canonical.
 */
module Ordering {

  ghost predicate StrictTotal<T(!new)>(lt: (T, T) -> bool) {
    && (forall x :: !lt(x, x))
    && (forall x, y, z {:trigger lt(x, y), lt(y, z)} :: lt(x, y) && lt(y, z) ==> lt(x, z))
    && (forall x, y :: x != y ==> lt(x, y) || lt(y, x))
  }

  ghost predicate Ascending<T(!new)>(s: seq<T>, lt: (T, T) -> bool) {
    forall i, j :: 0 <= i < j < |s| ==> lt(s[i], s[j])
  }

  ghost predicate Distinct<T>(s: seq<T>) {
    forall i, j :: 0 <= i < j < |s| ==> s[i] != s[j]
  }

  ghost function Elements<T>(s: seq<T>): set<T> {
    set x | x in s
  }

  lemma {:induction false} DistinctSize<T>(s: seq<T>)
    ensures |Elements(s)| <= |s|
    ensures Distinct(s) <==> |Elements(s)| == |s|
  {
    if s != [] {
      var n := |s| - 1;
      DistinctSize(s[..n]);
      assert s == s[..n] + [s[n]];
      assert Elements(s) == Elements(s[..n]) + {s[n]};
      if s[n] in s[..n] {
        assert Elements(s) == Elements(s[..n]);
      } else {
        assert forall i :: 0 <= i < n ==> s[i] == s[..n][i];
        if Distinct(s[..n]) {
          assert Distinct(s);
        }
      }
    }
  }

  lemma {:induction false} SubsetSize<T>(a: set<T>, b: set<T>)
    requires a <= b
    ensures |a| <= |b|
  {
    if a != {} {
      var x :| x in a;
      SubsetSize(a - {x}, b - {x});
    }
  }

  /** A strictly ascending sequence is determined by its elements. */
  lemma {:induction false} AscendingUnique<T(!new)>(a: seq<T>, b: seq<T>, lt: (T, T) -> bool)
    requires StrictTotal(lt)
    requires Ascending(a, lt) && Ascending(b, lt)
    requires Elements(a) == Elements(b)
    ensures a == b
  {
    AscendingDistinct(a, lt);
    AscendingDistinct(b, lt);
    DistinctSize(a);
    DistinctSize(b);
    if a != [] {
      assert a[0] in Elements(b) && b[0] in Elements(a);
      HeadIsLeast(a, lt, b[0]);
      HeadIsLeast(b, lt, a[0]);
      assert a[0] == b[0];
      forall x ensures x in Elements(a[1..]) <==> x in Elements(b[1..]) {
        RestOf(a, lt, x);
        RestOf(b, lt, x);
      }
      AscendingUnique(a[1..], b[1..], lt);
      assert a == [a[0]] + a[1..] && b == [b[0]] + b[1..];
    }
  }

  lemma HeadIsLeast<T(!new)>(a: seq<T>, lt: (T, T) -> bool, x: T)
    requires Ascending(a, lt) && x in Elements(a)
    ensures x == a[0] || lt(a[0], x)
  {
    var i :| 0 <= i < |a| && a[i] == x;
  }

  lemma RestOf<T(!new)>(a: seq<T>, lt: (T, T) -> bool, x: T)
    requires StrictTotal(lt) && Ascending(a, lt) && a != []
    ensures x in Elements(a[1..]) <==> x in Elements(a) && x != a[0]
  {
    if x in a && x != a[0] {
      var i :| 0 <= i < |a| && a[i] == x;
      assert a[1..][i - 1] == x;
    }
    if x in a[1..] {
      var i :| 0 <= i < |a[1..]| && a[1..][i] == x;
      assert a[i + 1] == x && lt(a[0], a[i + 1]);
    }
  }

  /** Insert `x` before the first element that is not below it. */
  function Insert<T>(x: T, s: seq<T>, lt: (T, T) -> bool): (r: seq<T>)
    ensures multiset(r) == multiset(s) + multiset{x}
    ensures |r| == |s| + 1
  {
    if s == [] then [x]
    else if lt(s[0], x) then
      assert s == [s[0]] + s[1..];
      [s[0]] + Insert(x, s[1..], lt)
    else [x] + s
  }

  /** A stable sort, as `Array.prototype.sort` and Python's `sorted` promise. */
  function Sort<T>(s: seq<T>, lt: (T, T) -> bool): (r: seq<T>)
    ensures multiset(r) == multiset(s)
    ensures |r| == |s|
  {
    if s == [] then []
    else
      assert s == [s[0]] + s[1..];
      Insert(s[0], Sort(s[1..], lt), lt)
  }

  lemma {:induction false} InsertElements<T>(x: T, s: seq<T>, lt: (T, T) -> bool)
    ensures forall y :: y in Insert(x, s, lt) <==> y == x || y in s
  {
    if s != [] {
      assert s == [s[0]] + s[1..];
      InsertElements(x, s[1..], lt);
    }
  }

  lemma {:induction false} SortElements<T>(s: seq<T>, lt: (T, T) -> bool)
    ensures forall x :: x in Sort(s, lt) <==> x in s
    ensures Elements(Sort(s, lt)) == Elements(s)
  {
    if s != [] {
      assert s == [s[0]] + s[1..];
      SortElements(s[1..], lt);
      InsertElements(s[0], Sort(s[1..], lt), lt);
      SameElements(Sort(s, lt), s);
    }
  }

  lemma SameElements<T>(a: seq<T>, b: seq<T>)
    requires forall x :: x in a <==> x in b
    ensures Elements(a) == Elements(b)
  {
  }

  lemma ConsAscending<T(!new)>(x: T, s: seq<T>, lt: (T, T) -> bool)
    requires Ascending(s, lt) && forall y :: y in s ==> lt(x, y)
    ensures Ascending([x] + s, lt)
  {
    var r := [x] + s;
    forall i, j | 0 <= i < j < |r| ensures lt(r[i], r[j]) {
      assert r[j] == s[j - 1];
      assert i > 0 ==> r[i] == s[i - 1];
    }
  }

  lemma HeadBelow<T(!new)>(s: seq<T>, lt: (T, T) -> bool, y: T)
    requires Ascending(s, lt) && s != [] && y in s[1..]
    ensures lt(s[0], y)
  {
    var i :| 0 <= i < |s[1..]| && s[1..][i] == y;
    assert s[i + 1] == y;
  }

  lemma {:induction false} InsertAscending<T(!new)>(x: T, s: seq<T>, lt: (T, T) -> bool)
    requires StrictTotal(lt) && Ascending(s, lt) && x !in s
    ensures Ascending(Insert(x, s, lt), lt)
  {
    if s != [] {
      var rest := s[1..];
      assert s == [s[0]] + rest;
      assert forall i :: 0 <= i < |rest| ==> rest[i] == s[i + 1];
      if lt(s[0], x) {
        InsertAscending(x, rest, lt);
        InsertElements(x, rest, lt);
        forall y | y in Insert(x, rest, lt) ensures lt(s[0], y) {
          if y != x { HeadBelow(s, lt, y); }
        }
        ConsAscending(s[0], Insert(x, rest, lt), lt);
      } else {
        assert s[0] in s && lt(x, s[0]);
        forall y | y in s ensures lt(x, y) {
          if y != s[0] { HeadBelow(s, lt, y); }
        }
        ConsAscending(x, s, lt);
      }
    }
  }

  lemma {:induction false} SortAscending<T(!new)>(s: seq<T>, lt: (T, T) -> bool)
    requires StrictTotal(lt) && Distinct(s)
    ensures Ascending(Sort(s, lt), lt)
  {
    if s != [] {
      SortAscending(s[1..], lt);
      SortElements(s[1..], lt);
      assert forall i :: 0 <= i < |s[1..]| ==> s[1..][i] == s[i + 1];
      assert s[0] !in Elements(s[1..]);
      assert s[0] !in Elements(Sort(s[1..], lt));
      InsertAscending(s[0], Sort(s[1..], lt), lt);
    }
  }

  /** The listing of a finite set in ascending order. */
  ghost function Listing<T(!new)>(s: set<T>, lt: (T, T) -> bool): (r: seq<T>)
    requires StrictTotal(lt)
    ensures Ascending(r, lt) && Elements(r) == s && |r| == |s|
  {
    var r0 := ListingExists(s, lt);
    var r :| Ascending(r, lt) && Elements(r) == s;
    AscendingDistinct(r, lt);
    DistinctSize(r);
    r
  }

  lemma AscendingDistinct<T(!new)>(r: seq<T>, lt: (T, T) -> bool)
    requires StrictTotal(lt) && Ascending(r, lt)
    ensures Distinct(r)
  {
    forall i, j | 0 <= i < j < |r| ensures r[i] != r[j] {
      assert lt(r[i], r[j]);
    }
  }

  ghost function ListingExists<T(!new)>(s: set<T>, lt: (T, T) -> bool): (r: seq<T>)
    requires StrictTotal(lt)
    ensures Ascending(r, lt) && Elements(r) == s
  {
    if s == {} then []
    else
      var x :| x in s;
      var rest := ListingExists(s - {x}, lt);
      assert x !in Elements(rest);
      InsertAscending(x, rest, lt);
      InsertElements(x, rest, lt);
      assert forall y :: y in Elements(Insert(x, rest, lt)) <==> y == x || y in Elements(rest);
      Insert(x, rest, lt)
  }

  /** Enumerate a set in ascending order (Python's `sorted` on distinct keys). */
  method Sorted<T(!new, ==)>(s: set<T>, lt: (T, T) -> bool) returns (r: seq<T>)
    requires StrictTotal(lt)
    ensures r == Listing(s, lt)
  {
    r := [];
    var rest := s;
    while rest != {}
      invariant rest <= s && Elements(r) == s - rest && Ascending(r, lt)
      decreases rest
    {
      var x :| x in rest;
      assert x !in Elements(r);
      InsertAscending(x, r, lt);
      InsertElements(x, r, lt);
      assert forall y :: y in Elements(Insert(x, r, lt)) <==> y == x || y in Elements(r);
      r := Insert(x, r, lt);
      rest := rest - {x};
    }
    AscendingUnique(r, Listing(s, lt), lt);
  }

  /** Lexicographic order of strings by character code. */
  predicate LexLt(a: string, b: string) {
    if b == "" then false
    else if a == "" then true
    else a[0] < b[0] || (a[0] == b[0] && LexLt(a[1..], b[1..]))
  }

  lemma {:induction false} LexTransitive(a: string, b: string, c: string)
    requires LexLt(a, b) && LexLt(b, c)
    ensures LexLt(a, c)
  {
    if a != "" && a[0] == b[0] && b[0] == c[0] {
      LexTransitive(a[1..], b[1..], c[1..]);
    }
  }

  lemma {:induction false} LexTrichotomy(a: string, b: string)
    ensures !LexLt(a, a)
    ensures a != b ==> LexLt(a, b) || LexLt(b, a)
  {
    if a != "" {
      LexTrichotomy(a[1..], if b == "" then "" else b[1..]);
      assert a == [a[0]] + a[1..];
      assert b != "" ==> b == [b[0]] + b[1..];
    }
  }

  /** `a` comes before `b`: at the first difference it ends, or has the smaller character. */
  ghost predicate Precedes(a: string, b: string) {
    exists k: nat :: BeforeAt(a, b, k)
  }

  ghost predicate BeforeAt(a: string, b: string, k: nat) {
    && k <= |a| && k < |b| && a[..k] == b[..k]
    && (k == |a| || a[k] < b[k])
  }

  /** The recursive order is the order by first difference. */
  lemma {:induction false} LexByFirstDifference(a: string, b: string)
    ensures LexLt(a, b) <==> Precedes(a, b)
  {
    if a == "" || b == "" {
      if b != "" { assert BeforeAt(a, b, 0); }
    } else if a[0] == b[0] {
      LexByFirstDifference(a[1..], b[1..]);
      if k: nat :| BeforeAt(a[1..], b[1..], k) {
        assert a[..k + 1] == [a[0]] + a[1..][..k] && b[..k + 1] == [b[0]] + b[1..][..k];
        assert BeforeAt(a, b, k + 1);
      }
      if k: nat :| BeforeAt(a, b, k) {
        assert k > 0;
        assert a[1..][..k - 1] == a[..k][1..] && b[1..][..k - 1] == b[..k][1..];
        assert BeforeAt(a[1..], b[1..], k - 1);
      }
    } else {
      if a[0] < b[0] { assert BeforeAt(a, b, 0); }
      forall k: nat | BeforeAt(a, b, k) ensures a[0] < b[0] {
        HeadsOf(a, b, k);
      }
    }
  }

  lemma HeadsOf(a: string, b: string, k: nat)
    requires a != "" && BeforeAt(a, b, k)
    ensures a[0] == b[0] || (k == 0 && a[0] < b[0])
  {
    if k > 0 {
      assert a[0] == a[..k][0] && b[0] == b[..k][0];
    }
  }

  lemma LexStrictTotal()
    ensures StrictTotal(LexLt)
  {
    forall x, y, z | LexLt(x, y) && LexLt(y, z) ensures LexLt(x, z) {
      LexTransitive(x, y, z);
    }
    forall x: string, y: string ensures !LexLt(x, x) && (x != y ==> LexLt(x, y) || LexLt(y, x)) {
      LexTrichotomy(x, y);
    }
  }

  lemma AscendingPrecedes(r: seq<string>)
    requires Ascending(r, LexLt)
    ensures forall i, j :: 0 <= i < j < |r| ==> Precedes(r[i], r[j])
  {
    forall i, j | 0 <= i < j < |r| ensures Precedes(r[i], r[j]) {
      LexByFirstDifference(r[i], r[j]);
    }
  }

  /** Names in ascending lexicographic order. */
  ghost function SortedNames(s: set<string>): (r: seq<string>)
    ensures Ascending(r, LexLt) && Distinct(r)
    ensures forall i, j :: 0 <= i < j < |r| ==> Precedes(r[i], r[j])
    ensures forall name :: name in r <==> name in s
  {
    LexStrictTotal();
    var r := Listing(s, LexLt);
    AscendingDistinct(r, LexLt);
    assert forall name :: name in r <==> name in Elements(r);
    assert forall i, j :: 0 <= i < j < |r| ==> Precedes(r[i], r[j]) by { AscendingPrecedes(r); }
    r
  }

  method SortNames(s: set<string>) returns (r: seq<string>)
    ensures r == SortedNames(s)
  {
    LexStrictTotal();
    r := Sorted(s, LexLt);
  }
}
