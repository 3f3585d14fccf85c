/** String operations of the host languages: searching, splitting, trimming and decimal numerals. */
module Strings {
  import opened Wrappers
  import opened Text

  // ----- characters that do not occur -------------------------------------------------

  ghost predicate Lacks(s: string, c: char) {
    forall i :: 0 <= i < |s| ==> s[i] != c
  }

  /** No two neighbouring characters both equal `c`. */
  ghost predicate NoPair(s: string, c: char) {
    forall i :: 0 <= i < |s| - 1 ==> !(s[i] == c && s[i + 1] == c)
  }

  lemma LacksNoPair(s: string, c: char)
    requires Lacks(s, c)
    ensures NoPair(s, c)
  {
  }

  lemma NoPairConcat(a: string, b: string, c: char)
    requires NoPair(a, c) && NoPair(b, c)
    requires a == "" || b == "" || a[|a| - 1] != c || b[0] != c
    ensures NoPair(a + b, c)
  {
    var s := a + b;
    forall i | 0 <= i < |s| - 1 ensures !(s[i] == c && s[i + 1] == c) {
      if i + 1 < |a| {
        assert s[i] == a[i] && s[i + 1] == a[i + 1];
      } else if i >= |a| {
        assert s[i] == b[i - |a|] && s[i + 1] == b[i + 1 - |a|];
      }
    }
  }

  lemma ContainsPair(s: string, c: char)
    ensures Contains(s, [c, c]) <==> !NoPair(s, c)
  {
    if Contains(s, [c, c]) {
      var i :| 0 <= i <= |s| && At(s, i, [c, c]);
      assert s[i..i + 2][0] == s[i] && s[i..i + 2][1] == s[i + 1];
    }
    if !NoPair(s, c) {
      var i :| 0 <= i < |s| - 1 && s[i] == c && s[i + 1] == c;
      assert s[i..i + 2] == [c, c];
      assert At(s, i, [c, c]);
    }
  }

  lemma LacksContains(s: string, c: char, part: string)
    requires Lacks(s, c) && c in part
    ensures !Contains(s, part)
  {
    var k :| 0 <= k < |part| && part[k] == c;
    forall i | 0 <= i <= |s| ensures !At(s, i, part) {
      if i + |part| <= |s| {
        assert s[i..i + |part|][k] == s[i + k];
      }
    }
  }

  // ----- cutting at a separator ---------------------------------------------------------

  /** Text up to the first `c` is determined by the whole. */
  lemma {:induction false} CutUnique(a: string, x: string, b: string, y: string, c: char)
    requires Lacks(a, c) && Lacks(b, c)
    requires x == "" || x[0] == c
    requires y == "" || y[0] == c
    requires a + x == b + y
    ensures a == b && x == y
  {
    assert a == "" ==> a + x == x;
    assert b == "" ==> b + y == y;
    assert a != "" ==> (a + x)[0] == a[0];
    assert b != "" ==> (b + y)[0] == b[0];
    if a != "" && b != "" {
      assert (a + x)[1..] == a[1..] + x && (b + y)[1..] == b[1..] + y;
      CutUnique(a[1..], x, b[1..], y, c);
      assert a == [a[0]] + a[1..] && b == [b[0]] + b[1..];
    }
  }

  /** The same with a separator between the parts. */
  lemma CutAt(a: string, x: string, b: string, y: string, c: char)
    requires Lacks(a, c) && Lacks(b, c)
    requires a + [c] + x == b + [c] + y
    ensures a == b && x == y
  {
    assert a + [c] + x == a + ([c] + x) && b + [c] + y == b + ([c] + y);
    CutUnique(a, [c] + x, b, [c] + y, c);
    assert ([c] + x)[1..] == x && ([c] + y)[1..] == y;
  }

  /** The position of the first occurrence of `part`, or -1. */
  function IndexOf(s: string, part: string): (i: int)
    ensures -1 <= i <= |s|
    ensures i >= 0 ==> At(s, i, part)
    ensures forall j :: 0 <= j < (if i < 0 then |s| + 1 else i) ==> !At(s, j, part)
    decreases |s|
  {
    if At(s, 0, part) then 0
    else if s == "" then -1
    else
      var rest := IndexOf(s[1..], part);
      assert forall j :: 0 < j <= |s| ==> (At(s, j, part) <==> At(s[1..], j - 1, part)) by {
        ShiftAt(s, part);
      }
      if rest < 0 then -1 else rest + 1
  }

  /** The first occurrence of a character follows text that lacks it. */
  lemma IndexOfFirst(a: string, c: char, rest: string)
    requires Lacks(a, c)
    ensures IndexOf(a + [c] + rest, [c]) == |a|
  {
    var s := a + [c] + rest;
    assert s[|a|..|a| + 1] == [c];
    assert At(s, |a|, [c]);
    forall j | 0 <= j < |a| ensures !At(s, j, [c]) {
      assert s[j..j + 1][0] == a[j];
    }
  }

  lemma IndexOfNone(s: string, c: char)
    requires Lacks(s, c)
    ensures IndexOf(s, [c]) < 0
  {
    LacksContains(s, c, [c]);
  }

  lemma SliceTail(s: string, j: nat, n: nat)
    requires 0 < j <= n <= |s|
    ensures s[j..n] == s[1..][j - 1..n - 1]
  {
    var a, b := s[j..n], s[1..][j - 1..n - 1];
    forall k | 0 <= k < |a| ensures a[k] == b[k] {
      assert a[k] == s[j + k] && b[k] == s[1..][j - 1 + k];
    }
  }

  lemma ShiftAt(s: string, part: string)
    requires s != ""
    ensures forall j :: 0 < j <= |s| ==> (At(s, j, part) <==> At(s[1..], j - 1, part))
  {
    forall j | 0 < j <= |s| ensures At(s, j, part) <==> At(s[1..], j - 1, part) {
      var n := j + |part|;
      if n <= |s| {
        SliceTail(s, j, n);
      }
    }
  }

  /** `String.prototype.split` with a non-empty separator. */
  function Split(s: string, sep: string): (parts: seq<string>)
    requires sep != ""
    ensures parts != []
    decreases |s|
  {
    var i := IndexOf(s, sep);
    if i < 0 then [s] else [s[..i]] + Split(s[i + |sep|..], sep)
  }

  function Join(parts: seq<string>, sep: string): string
    requires parts != []
  {
    if |parts| == 1 then parts[0] else parts[0] + sep + Join(parts[1..], sep)
  }

  lemma {:induction false} JoinSplit(s: string, sep: string)
    requires sep != ""
    ensures Join(Split(s, sep), sep) == s
    decreases |s|
  {
    var i := IndexOf(s, sep);
    if i >= 0 {
      var rest := s[i + |sep|..];
      JoinSplit(rest, sep);
      JoinCons(s[..i], Split(rest, sep), sep);
      ThreeParts(s, i, i + |sep|);
    }
  }

  lemma JoinCons(first: string, rest: seq<string>, sep: string)
    requires rest != []
    ensures Join([first] + rest, sep) == first + sep + Join(rest, sep)
  {
    assert ([first] + rest)[1..] == rest;
  }

  lemma ThreeParts(s: string, i: nat, j: nat)
    requires i <= j <= |s|
    ensures s == s[..i] + s[i..j] + s[j..]
  {
  }

  lemma SplitNone(s: string, sep: string)
    requires sep != "" && !Contains(s, sep)
    ensures Split(s, sep) == [s]
  {
    assert IndexOf(s, sep) < 0;
  }

  /** Splitting peels off a first part that lacks the separator's first character. */
  lemma SplitCons(a: string, sep: string, rest: string)
    requires sep != "" && Lacks(a, sep[0])
    ensures Split(a + sep + rest, sep) == [a] + Split(rest, sep)
  {
    var s := a + sep + rest;
    assert s[|a|..|a| + |sep|] == sep;
    assert At(s, |a|, sep);
    forall j | 0 <= j < |a| ensures !At(s, j, sep) {
      if j + |sep| <= |s| {
        assert s[j..j + |sep|][0] == a[j];
      }
    }
    var i := IndexOf(s, sep);
    assert i == |a|;
    assert s[..i] == a && s[i + |sep|..] == rest;
  }

  // ----- trimming -----------------------------------------------------------------------

  /** The white space and line terminators that `String.prototype.trim` removes. */
  predicate IsJsSpace(c: char) {
    || '\t' <= c <= '\r' || c == ' ' || c == '\U{a0}' || c == '\U{1680}'
    || '\U{2000}' <= c <= '\U{200a}' || c == '\U{2028}' || c == '\U{2029}' || c == '\U{202f}'
    || c == '\U{205f}' || c == '\U{3000}' || c == '\U{feff}'
  }

  function Trim(s: string): string
    decreases |s|
  {
    if s == "" then ""
    else if IsJsSpace(s[0]) then Trim(s[1..])
    else if IsJsSpace(s[|s| - 1]) then Trim(s[..|s| - 1])
    else s
  }

  ghost predicate AllSpace(s: string) {
    forall i :: 0 <= i < |s| ==> IsJsSpace(s[i])
  }

  /** Text that starts and ends with something to see, or is empty. */
  ghost predicate IsTrimmed(s: string) {
    s == "" || (!IsJsSpace(s[0]) && !IsJsSpace(s[|s| - 1]))
  }

  /** Padding is removed whole. */
  lemma {:induction false} TrimPadded(before: string, s: string, after: string)
    requires AllSpace(before) && AllSpace(after) && s != "" && IsTrimmed(s)
    ensures Trim(before + s + after) == s
    decreases |before| + |after|
  {
    var padded := before + s + after;
    if before != "" {
      assert padded[1..] == before[1..] + s + after;
      TrimPadded(before[1..], s, after);
    } else if after != "" {
      assert padded[0] == s[0] && padded[..|padded| - 1] == before + s + after[..|after| - 1];
      assert padded[|padded| - 1] == after[|after| - 1];
      TrimPadded(before, s, after[..|after| - 1]);
    } else {
      assert padded == s;
    }
  }

  /** Trimming removes padding and nothing else. */
  lemma {:induction false} TrimExact(s: string) returns (before: string, after: string)
    ensures AllSpace(before) && AllSpace(after) && IsTrimmed(Trim(s))
    ensures s == before + Trim(s) + after
    decreases |s|
  {
    before, after := "", "";
    if s != "" {
      if IsJsSpace(s[0]) {
        var b, a := TrimExact(s[1..]);
        before, after := [s[0]] + b, a;
        assert s == [s[0]] + s[1..];
      } else if IsJsSpace(s[|s| - 1]) {
        var n := |s| - 1;
        var b, a := TrimExact(s[..n]);
        before, after := b, a + [s[n]];
        assert s == s[..n] + [s[n]];
      }
    }
  }

  // ----- decimal numerals ---------------------------------------------------------------

  function DigitChar(d: nat): char
    requires d < 10
  {
    '0' + d as char
  }

  function DigitValue(c: char): nat
    requires IsDigit(c)
  {
    c as int - '0' as int
  }

  function Decimal(n: nat): (s: string)
    ensures s != "" && forall i :: 0 <= i < |s| ==> IsDigit(s[i])
  {
    if n < 10 then [DigitChar(n)] else Decimal(n / 10) + [DigitChar(n % 10)]
  }

  function DecimalValue(s: string): nat
    requires forall i :: 0 <= i < |s| ==> IsDigit(s[i])
  {
    if s == "" then 0
    else 10 * DecimalValue(s[..|s| - 1]) + DigitValue(s[|s| - 1])
  }

  lemma {:induction false} DecimalRoundTrip(n: nat)
    ensures DecimalValue(Decimal(n)) == n
  {
    var s := Decimal(n);
    if n >= 10 {
      DecimalRoundTrip(n / 10);
      assert s[..|s| - 1] == Decimal(n / 10);
    } else {
      assert s[..0] == "";
    }
  }

  /** `Number(s)` accepted only when it is a safe integer that prints back as `s`. */
  function CanonicalNumber(s: string): Option<nat> {
    if s != "" && (forall i :: 0 <= i < |s| ==> IsDigit(s[i]))
       && DecimalValue(s) <= MAX_SAFE_INTEGER && Decimal(DecimalValue(s)) == s
    then Some(DecimalValue(s))
    else None
  }
}
