/**
 The SHA256SUMS file of a release bundle: one `digest  name` line per asset,
 written in name order and read back line by line.
 */
module ReleaseChecksums {
  import opened Wrappers
  import opened Ordering
  import opened Text

  /** The line boundaries of Python's `str.splitlines`. */
  predicate IsBreak(c: char) {
    || c == '\n' || c == '\r'
    || c == '\U{0b}' || c == '\U{0c}' || c == '\U{1c}' || c == '\U{1d}' || c == '\U{1e}'
    || c == '\U{85}' || c == '\U{2028}' || c == '\U{2029}'
  }

  predicate NoBreaks(s: string) {
    forall i :: 0 <= i < |s| ==> !IsBreak(s[i])
  }

  function BreakIndex(s: string): (n: nat)
    ensures n <= |s| && NoBreaks(s[..n])
    ensures n < |s| ==> IsBreak(s[n])
  {
    if s == "" || IsBreak(s[0]) then 0
    else
      var n := 1 + BreakIndex(s[1..]);
      assert s[..n] == [s[0]] + s[1..][..n - 1];
      n
  }

  /** The length of the line boundary at the start of `s`: a carriage return takes a following newline along. */
  function BreakLength(s: string): (n: nat)
    requires s != ""
    ensures 1 <= n <= |s|
  {
    if |s| > 1 && s[0] == '\r' && s[1] == '\n' then 2 else 1
  }

  function SplitLines(s: string): (lines: seq<string>)
    ensures forall i :: 0 <= i < |lines| ==> NoBreaks(lines[i])
  {
    if s == "" then []
    else
      var n := BreakIndex(s);
      if n == |s| then
        assert s[..n] == s;
        [s]
      else [s[..n]] + SplitLines(s[n + BreakLength(s[n..])..])
  }

  lemma {:induction false} BreakIndexOf(line: string, c: char, rest: string)
    requires NoBreaks(line) && IsBreak(c)
    ensures BreakIndex(line + [c] + rest) == |line|
  {
    var s := line + [c] + rest;
    if line != "" {
      assert s[1..] == line[1..] + [c] + rest;
      BreakIndexOf(line[1..], c, rest);
    }
  }

  lemma {:induction false} BreakIndexNone(line: string)
    requires NoBreaks(line)
    ensures BreakIndex(line) == |line|
  {
    if line != "" { BreakIndexNone(line[1..]); }
  }

  /**
   The laws of splitting: nothing gives no line, text without a boundary is one line,
   and a line ends at its first boundary, which is a carriage return with the newline
   after it, or any single boundary character.
   */
  lemma SplitLaws(line: string, c: char, rest: string)
    requires NoBreaks(line) && IsBreak(c)
    ensures SplitLines("") == []
    ensures line != "" ==> SplitLines(line) == [line]
    ensures SplitLines(line + "\r\n" + rest) == [line] + SplitLines(rest)
    ensures !(c == '\r' && rest != "" && rest[0] == '\n') ==> SplitLines(line + [c] + rest) == [line] + SplitLines(rest)
  {
    BreakIndexNone(line);
    SplitOneLine(line, c, rest);
    var s := line + "\r\n" + rest;
    assert s == line + ['\r'] + ("\n" + rest);
    BreakIndexOf(line, '\r', "\n" + rest);
    assert s[|line|..] == "\r\n" + rest;
    assert s[..|line|] == line && s[|line| + 2..] == rest;
  }

  lemma SplitOneLine(line: string, c: char, rest: string)
    requires NoBreaks(line) && IsBreak(c)
    ensures !(c == '\r' && rest != "" && rest[0] == '\n') ==> SplitLines(line + [c] + rest) == [line] + SplitLines(rest)
  {
    var s := line + [c] + rest;
    BreakIndexOf(line, c, rest);
    assert s[|line|..] == [c] + rest;
    assert s[..|line|] == line && s[|line| + 1..] == rest;
  }

  // ----- writing ------------------------------------------------------------------

  function Line(digest: string, name: string): string {
    digest + "  " + name
  }

  function SumsText(names: seq<string>, sums: map<string, string>): string
    requires forall name :: name in names ==> name in sums
  {
    if names == [] then ""
    else Line(sums[names[0]], names[0]) + "\n" + SumsText(names[1..], sums)
  }

  ghost function SumsFile(sums: map<string, string>): string {
    SumsText(SortedNames(sums.Keys), sums)
  }

  method JoinLines(names: seq<string>, sums: map<string, string>) returns (text: string)
    requires forall name :: name in names ==> name in sums
    ensures text == SumsText(names, sums)
  {
    text := "";
    for i := 0 to |names|
      invariant text + SumsText(names[i..], sums) == SumsText(names, sums)
    {
      assert names[i..][1..] == names[i + 1..];
      text := text + (Line(sums[names[i]], names[i]) + "\n");
    }
  }

  /** write_sha256sums: refuses to write an empty file. */
  method WriteSums(sums: map<string, string>) returns (r: Result<string>)
    ensures r.Ok? <==> sums != map[]
    ensures r.Ok? ==> r.value == SumsFile(sums)
  {
    if sums == map[] { return Err("SHA256SUMS would be empty"); }
    var names := SortNames(sums.Keys);
    var text := JoinLines(names, sums);
    return Ok(text);
  }

  // ----- reading ------------------------------------------------------------------

  /** A name the reader's pattern admits on one line. */
  predicate IsLineName(name: string) {
    name != "" && forall i :: 0 <= i < |name| ==> name[i] !in "/\\\r\n"
  }

  predicate IsSumLine(line: string) {
    |line| > 66 && IsHex64(line[..64]) && line[64..66] == "  " && IsLineName(line[66..])
  }

  function ReadLines(lines: seq<string>, sums: map<string, string>): Result<map<string, string>> {
    if lines == [] then Ok(sums)
    else if lines[0] == "" then ReadLines(lines[1..], sums)
    else if !IsSumLine(lines[0]) || lines[0][66..] in sums then Err("SHA256SUMS")
    else ReadLines(lines[1..], sums[lines[0][66..] := lines[0][..64]])
  }

  function ReadText(text: string): Result<map<string, string>> {
    var sums :- ReadLines(SplitLines(text), map[]);
    if sums == map[] then Err("SHA256SUMS is empty") else Ok(sums)
  }

  /** _read_sha256sums */
  method ReadSums(text: string) returns (r: Result<map<string, string>>)
    ensures r == ReadText(text)
  {
    var lines := SplitLines(text);
    var sums: map<string, string> := map[];
    for i := 0 to |lines|
      invariant ReadLines(lines, map[]) == ReadLines(lines[i..], sums)
    {
      assert lines[i..][1..] == lines[i + 1..];
      var line := lines[i];
      if line != "" {
        if !IsSumLine(line) { return Err("SHA256SUMS"); }
        var digest, name := line[..64], line[66..];
        if name in sums { return Err("SHA256SUMS"); }
        sums := sums[name := digest];
      }
    }
    if sums == map[] { return Err("SHA256SUMS is empty"); }
    return Ok(sums);
  }

  // ----- reading undoes writing ---------------------------------------------------

  /** A name that survives the trip: one safe path component on one line. */
  predicate IsSafeName(name: string) {
    IsLineName(name) && NoBreaks(name)
  }

  /** A digest of 64 lower-case hexadecimal digits, two spaces, and a name without separators or line ends. */
  ghost predicate IsEntry(line: string, digest: string, name: string) {
    && line == digest + "  " + name
    && |digest| == 64 && (forall i :: 0 <= i < 64 ==> '0' <= digest[i] <= '9' || 'a' <= digest[i] <= 'f')
    && name != ""
    && forall i :: 0 <= i < |name| ==> name[i] != '/' && name[i] != '\\' && name[i] != '\r' && name[i] != '\n'
  }

  /** The reader's pattern admits exactly such lines, and takes them apart at the two spaces. */
  lemma SumLineExact(line: string)
    ensures IsSumLine(line) <==> exists digest, name :: IsEntry(line, digest, name)
    ensures IsSumLine(line) ==> IsEntry(line, line[..64], line[66..])
  {
    assert "/\\\r\n" == ['/', '\\', '\r', '\n'];
    if IsSumLine(line) {
      assert line == line[..64] + line[64..66] + line[66..];
      assert IsEntry(line, line[..64], line[66..]);
    }
    if digest, name :| IsEntry(line, digest, name) {
      assert line[..64] == digest && line[64..66] == "  " && line[66..] == name;
    }
  }

  /** The same by character code: no slash of either kind and none of Python's line boundaries. */
  lemma SafeByCode(name: string)
    ensures IsSafeName(name)
       <==> && name != ""
            && forall i :: 0 <= i < |name| ==>
                 name[i] as int !in {47, 92, 10, 11, 12, 13, 28, 29, 30, 0x85, 0x2028, 0x2029}
  {
    forall i | 0 <= i < |name|
      ensures name[i] as int !in {47, 92, 10, 11, 12, 13, 28, 29, 30, 0x85, 0x2028, 0x2029}
         <==> name[i] !in "/\\\r\n" && !IsBreak(name[i])
    {
      assert "/\\\r\n" == ['/', '\\', '\r', '\n'];
    }
  }

  lemma LineParts(digest: string, name: string)
    requires IsHex64(digest) && IsSafeName(name)
    ensures var line := Line(digest, name);
            IsSumLine(line) && line[..64] == digest && line[66..] == name && NoBreaks(line)
  {
    var line := Line(digest, name);
    assert line[64..66] == "  " && line[66..] == name && line[..64] == digest;
    forall i | 0 <= i < |line| ensures !IsBreak(line[i]) {
      if i < 64 {
        assert line[i] == digest[i];
      } else if i >= 66 {
        assert line[i] == name[i - 66];
      }
    }
  }

  ghost function Lines(names: seq<string>, sums: map<string, string>): seq<string>
    requires forall name :: name in names ==> name in sums
  {
    if names == [] then [] else [Line(sums[names[0]], names[0])] + Lines(names[1..], sums)
  }

  lemma {:induction false} SplitWritten(names: seq<string>, sums: map<string, string>)
    requires forall name :: name in names ==> name in sums
    requires forall name :: name in names ==> IsHex64(sums[name]) && IsSafeName(name)
    ensures SplitLines(SumsText(names, sums)) == Lines(names, sums)
  {
    if names != [] {
      LineParts(sums[names[0]], names[0]);
      SplitOneLine(Line(sums[names[0]], names[0]), '\n', SumsText(names[1..], sums));
      SplitWritten(names[1..], sums);
    }
  }

  lemma ReadOneLine(digest: string, name: string, rest: seq<string>, done: map<string, string>)
    requires IsHex64(digest) && IsSafeName(name) && name !in done
    ensures ReadLines([Line(digest, name)] + rest, done) == ReadLines(rest, done[name := digest])
  {
    LineParts(digest, name);
    assert ([Line(digest, name)] + rest)[1..] == rest;
  }

  ghost function Picked(names: seq<string>, sums: map<string, string>): map<string, string>
    requires forall name :: name in names ==> name in sums
  {
    map name | name in names :: sums[name]
  }

  lemma PickedCons(names: seq<string>, sums: map<string, string>, done: map<string, string>)
    requires names != []
    requires forall name :: name in names ==> name in sums
    ensures done[names[0] := sums[names[0]]] + Picked(names[1..], sums) == done + Picked(names, sums)
  {
    assert names == [names[0]] + names[1..];
  }

  lemma {:induction false} ReadWritten(names: seq<string>, sums: map<string, string>, done: map<string, string>)
    requires Distinct(names)
    requires forall name :: name in names ==> name in sums
    requires forall name :: name in names ==> IsHex64(sums[name]) && IsSafeName(name)
    requires forall name :: name in names ==> name !in done
    ensures ReadLines(Lines(names, sums), done) == Ok(done + Picked(names, sums))
  {
    if names == [] {
      assert done + Picked(names, sums) == done;
    } else {
      var name, rest := names[0], names[1..];
      assert forall i :: 0 <= i < |rest| ==> rest[i] == names[i + 1];
      ReadOneLine(sums[name], name, Lines(rest, sums), done);
      ReadWritten(rest, sums, done[name := sums[name]]);
      PickedCons(names, sums, done);
    }
  }

  lemma {:induction false} ReadNamesSafe(lines: seq<string>, sums: map<string, string>)
    requires forall i :: 0 <= i < |lines| ==> NoBreaks(lines[i])
    requires forall name :: name in sums ==> IsSafeName(name)
    ensures ReadLines(lines, sums).Ok? ==>
      forall name :: name in ReadLines(lines, sums).value ==> IsSafeName(name)
  {
    if lines != [] && ReadLines(lines, sums).Ok? {
      if lines[0] == "" {
        ReadNamesSafe(lines[1..], sums);
      } else {
        assert forall i :: 0 <= i < |lines[0][66..]| ==> lines[0][66..][i] == lines[0][i + 66];
        ReadNamesSafe(lines[1..], sums[lines[0][66..] := lines[0][..64]]);
      }
    }
  }

  /** Reading the written checksums returns them exactly when every asset name is safe. */
  lemma ReadUndoesWrite(sums: map<string, string>)
    requires sums != map[]
    requires forall name :: name in sums ==> IsHex64(sums[name])
    ensures ReadText(SumsFile(sums)) == Ok(sums) <==> forall name :: name in sums ==> IsSafeName(name)
  {
    if ReadText(SumsFile(sums)) == Ok(sums) {
      ReadNamesSafe(SplitLines(SumsFile(sums)), map[]);
    }
    if forall name :: name in sums ==> IsSafeName(name) {
      WrittenReadsBack(sums);
    }
  }

  lemma WrittenReadsBack(sums: map<string, string>)
    requires sums != map[]
    requires forall name :: name in sums ==> IsHex64(sums[name]) && IsSafeName(name)
    ensures ReadText(SumsFile(sums)) == Ok(sums)
  {
    var names := SortedNames(sums.Keys);
    SplitWritten(names, sums);
    ReadWritten(names, sums, map[]);
    PickedAll(names, sums);
  }

  lemma PickedAll(names: seq<string>, sums: map<string, string>)
    requires forall name :: name in names <==> name in sums
    ensures map[] + Picked(names, sums) == sums
  {
  }
}
