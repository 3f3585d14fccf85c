/**
 Locators and their compact text `cdl.v1/installation/investigation/kind/id[;rev=n]`.
 Formatting and parsing undo each other in both directions.
 */
module CompactLocator {
  import opened Wrappers
  import opened Text
  import opened Strings
  import opened ResourceLocator
  import opened LocatorPaths

  const PREFIX := "cdl.v1"
  const REV := ";rev="

  datatype Locator = Locator(
    version: nat,
    installationId: string,
    investigationId: string,
    kind: Kind,
    resourceId: string,
    revision: Option<nat>,
    pathname: string)

  /** parseInvestigationResourceLocator */
  function ParseLocator(l: Locator): (r: Result<Locator>)
    ensures r.Ok? ==> r.value == l
  {
    CheckFields(l, ResourceIdOk(l.kind, l.resourceId), Derived(l.investigationId, l.kind, l.resourceId))
  }

  /** The shape of the revision and assertLocatorFields, given the verdict on the id and the derived pathname. */
  function CheckFields(l: Locator, idOk: bool, derived: string): (r: Result<Locator>)
    ensures r.Ok? ==> r.value == l && idOk
  {
    if l.revision.Some? && l.revision.value > MAX_SAFE_INTEGER then Err("revision")
    else if l.version != 1 then Err("version")
    else if !IsInstallationId(l.installationId) then Err("installationId")
    else if !IsRfc4122Uuid(l.investigationId) then Err("investigationId")
    else if !idOk then Err("resourceId")
    else if l.kind.DecisionRevision? && l.revision.None? then Err("revision")
    else if l.kind.Investigation? && l.resourceId != l.investigationId then Err("resourceId")
    else if l.pathname != derived then Err("pathname")
    else if Contains(l.pathname, "..") || Contains(l.pathname, "//") then Err("pathname")
    else Ok(l)
  }

  /** formatInvestigationResourceLocator: the pathname is derived, never taken from the caller. */
  function FormatLocator(
    installationId: string, investigationId: string, kind: Kind, resourceId: string, revision: Option<nat>)
    : (r: Result<Locator>)
    ensures r.Ok? ==> ParseLocator(r.value).Ok? && r.value == Locator(
      1, installationId, investigationId, kind, resourceId, revision, Derived(investigationId, kind, resourceId))
  {
    if !ValidResource(investigationId, kind, resourceId) then Err("resourceId")
    else
      ParseLocator(Locator(1, installationId, investigationId, kind, resourceId, revision,
                           Derived(investigationId, kind, resourceId)))
  }

  /** The fields a locator may be formatted from. */
  predicate IsFormattable(
    installationId: string, investigationId: string, kind: Kind, resourceId: string, revision: Option<nat>)
  {
    && IsInstallationId(installationId) && ValidResource(investigationId, kind, resourceId)
    && (revision.Some? ==> revision.value <= MAX_SAFE_INTEGER)
    && (kind.DecisionRevision? ==> revision.Some?)
    && (kind.Investigation? ==> resourceId == investigationId)
  }

  /** With a safe derived pathname the traversal check never decides. */
  lemma FieldsExact(l: Locator, idOk: bool, derived: string)
    requires idOk && IsRfc4122Uuid(l.investigationId) ==> !Contains(derived, "..") && !Contains(derived, "//")
    ensures CheckFields(l, idOk, derived).Ok?
       <==> && l.version == 1 && IsInstallationId(l.installationId) && IsRfc4122Uuid(l.investigationId) && idOk
            && (l.revision.Some? ==> l.revision.value <= MAX_SAFE_INTEGER)
            && (l.kind.DecisionRevision? ==> l.revision.Some?)
            && (l.kind.Investigation? ==> l.resourceId == l.investigationId)
            && l.pathname == derived
  {
  }

  /**
   A locator is accepted exactly when its fields can be formatted and its
   pathname is the derived one: the traversal check on the pathname never fails.
   */
  lemma LocatorExact(l: Locator)
    ensures ParseLocator(l).Ok?
       <==> && l.version == 1
            && IsFormattable(l.installationId, l.investigationId, l.kind, l.resourceId, l.revision)
            && l.pathname == Derived(l.investigationId, l.kind, l.resourceId)
  {
    var idOk := ResourceIdOk(l.kind, l.resourceId);
    if idOk && IsRfc4122Uuid(l.investigationId) {
      PathnameSafe(l.investigationId, l.kind, l.resourceId);
    }
    FieldsExact(l, idOk, Derived(l.investigationId, l.kind, l.resourceId));
  }

  /** Formatting succeeds exactly on formattable fields. */
  lemma FormatExact(
    installationId: string, investigationId: string, kind: Kind, resourceId: string, revision: Option<nat>)
    ensures FormatLocator(installationId, investigationId, kind, resourceId, revision).Ok?
       <==> IsFormattable(installationId, investigationId, kind, resourceId, revision)
  {
    LocatorExact(Locator(1, installationId, investigationId, kind, resourceId, revision,
                         Derived(investigationId, kind, resourceId)));
  }

  function RevisionText(revision: Option<nat>): string {
    match revision
    case None => ""
    case Some(n) => REV + Decimal(n)
  }

  function CompactText(l: Locator): string {
    PREFIX + "/" + (l.installationId + "/" + (l.investigationId + "/" +
      (Name(l.kind) + "/" + (l.resourceId + RevisionText(l.revision)))))
  }

  /** The components the compact text is made of. */
  function Components(l: Locator): seq<string> {
    [PREFIX, l.installationId, l.investigationId, Name(l.kind), l.resourceId + RevisionText(l.revision)]
  }

  function FormatCompact(l: Locator): Result<string> {
    var parsed :- ParseLocator(l);
    Ok(CompactText(parsed))
  }

  predicate HasForbidden(s: string) {
    || '\\' in s || Contains(s, "..") || '?' in s || '#' in s
    || Contains(s, "%2e") || Contains(s, "%2E") || Contains(s, "%2f") || Contains(s, "%2F")
  }

  function ParseCompact(raw: string): Result<Locator> {
    if HasControlChars(raw) then Err("malformed locator")
    else if HasForbidden(Trim(raw)) then Err("path traversal or URL injection")
    else ParseParts(Split(Trim(raw), "/"))
  }

  /** A locator read from five components is valid and has exactly those components. */
  function ParseParts(parts: seq<string>): (r: Result<Locator>)
    ensures r.Ok? ==> ParseLocator(r.value).Ok? && Components(r.value) == parts
  {
    if |parts| != 5 || parts[0] != PREFIX then Err("malformed compact locator")
    else
      var kind := FindKind(parts[3], KINDS);
      if kind.None? then Err("unknown resource kind")
      else ParseResource(parts[1], parts[2], kind.value, parts[4])
  }

  function ParseResource(installationId: string, investigationId: string, kind: Kind, resource: string)
    : (r: Result<Locator>)
    ensures r.Ok? ==>
      && ParseLocator(r.value).Ok?
      && r.value.installationId == installationId && r.value.investigationId == investigationId
      && r.value.kind == kind
      && r.value.resourceId + RevisionText(r.value.revision) == resource
  {
    ResourceHalves(resource);
    var halves := Split(resource, REV);
    if |halves| > 2 then Err("revision")
    else if |halves| == 2 then
      var revision := CanonicalNumber(halves[1]);
      if revision.None? then Err("revision")
      else FormatLocator(installationId, investigationId, kind, halves[0], revision)
    else
      assert halves[0] + "" == halves[0];
      FormatLocator(installationId, investigationId, kind, halves[0], None)
  }

  lemma ResourceHalves(resource: string)
    ensures var halves := Split(resource, REV);
            && (|halves| == 1 ==> halves[0] == resource)
            && (|halves| == 2 ==> halves[0] + (REV + halves[1]) == resource)
  {
    var halves := Split(resource, REV);
    JoinSplit(resource, REV);
    if |halves| == 2 {
      assert Join(halves[1..], REV) == halves[1];
      assert halves[0] + REV + halves[1] == halves[0] + (REV + halves[1]);
    }
  }

  // ----- the characters of a compact locator -----------------------------------------------

  ghost predicate IsWord(s: string) {
    s != "" && forall i :: 0 <= i < |s| ==> IsLower(s[i]) || s[i] == '_'
  }

  lemma EarlyNames()
    ensures IsWord("investigation") && IsWord("investigation_stage") && IsWord("evidence_item")
    ensures IsWord("intake_batch") && IsWord("evidence_context") && IsWord("imported_ai_run")
    ensures IsWord("workstream") && IsWord("workstream_attempt") && IsWord("workstream_rerun")
  {
  }

  lemma MiddleNames()
    ensures IsWord("comparison_finding") && IsWord("comparison_conflict") && IsWord("helpfulness")
    ensures IsWord("interaction_trace") && IsWord("experiment") && IsWord("discussion_message")
    ensures IsWord("timeline_event") && IsWord("hypothesis") && IsWord("action") && IsWord("observation")
  {
  }

  lemma LateNames()
    ensures IsWord("decision_revision") && IsWord("gold") && IsWord("export_event")
    ensures IsWord("portable_archive_event") && IsWord("log_workbench_view")
    ensures IsWord("log_workbench_bookmark") && IsWord("log_workbench_line")
  {
  }

  lemma NameIsWord(kind: Kind)
    ensures IsWord(Name(kind))
  {
    EarlyNames();
    MiddleNames();
    LateNames();
  }

  predicate IsLocatorChar(c: char) {
    IsTokenChar(c) || c == '/' || c == ';' || c == '='
  }

  ghost predicate IsLocatorText(s: string) {
    forall i :: 0 <= i < |s| ==> IsLocatorChar(s[i])
  }

  lemma LocatorTextConcat(a: string, b: string)
    requires IsLocatorText(a) && IsLocatorText(b)
    ensures IsLocatorText(a + b)
  {
  }

  lemma LocatorTextClean(s: string)
    requires IsClean(s)
    ensures !HasControlChars(s) && Trim(s) == s && !HasForbidden(s)
  {
    assert !IsJsSpace(s[0]) && !IsJsSpace(s[|s| - 1]);
    ContainsPair(s, '.');
    assert ['.', '.'] == "..";
    LacksContains(s, '%', "%2e");
    LacksContains(s, '%', "%2E");
    LacksContains(s, '%', "%2f");
    LacksContains(s, '%', "%2F");
  }

  /** One path component of the compact text. */
  ghost predicate IsPart(s: string) {
    s != "" && IsLocatorText(s) && Lacks(s, '/') && NoPair(s, '.')
  }

  ghost predicate IsClean(s: string) {
    s != "" && IsLocatorText(s) && NoPair(s, '.')
  }

  lemma InstallationIsPart(s: string)
    requires IsInstallationId(s)
    ensures IsPart(s)
  {
    assert s[..5] == "inst-";
    forall i | 0 <= i < |s| ensures IsLocatorChar(s[i]) && s[i] != '/' && s[i] != '.' {
      if i < 5 { assert s[i] == s[..5][i]; }
    }
  }

  lemma UuidIsPart(s: string)
    requires IsUuid(s)
    ensures IsPart(s)
  {
  }

  lemma WordIsPart(s: string)
    requires IsWord(s)
    ensures IsPart(s)
  {
  }

  lemma PrefixIsPart()
    ensures IsPart(PREFIX)
  {
  }

  lemma RevIsClean()
    ensures IsLocatorText(REV) && Lacks(REV, '.') && Lacks(REV, '/') && REV[0] == ';'
  {
  }

  lemma ResourceIsPart(id: string, revision: Option<nat>)
    requires id != "" && IsTokenText(id) && NoPair(id, '.')
    ensures IsPart(id + RevisionText(revision)) && Lacks(id, ';')
  {
    if revision.Some? {
      RevIsClean();
      var tail := REV + Decimal(revision.value);
      assert IsLocatorText(tail) && Lacks(tail, '.') && Lacks(tail, '/');
      NoPairConcat(id, tail, '.');
      LocatorTextConcat(id, tail);
    } else {
      assert id + "" == id;
    }
  }

  lemma FieldsAreParts(l: Locator)
    requires ParseLocator(l).Ok?
    ensures IsPart(l.installationId) && IsPart(l.investigationId) && IsPart(Name(l.kind))
    ensures IsPart(l.resourceId + RevisionText(l.revision)) && Lacks(l.resourceId, ';')
  {
    InstallationIsPart(l.installationId);
    UuidIsPart(l.investigationId);
    NameIsWord(l.kind);
    WordIsPart(Name(l.kind));
    ResourceIdExact(l.kind, l.resourceId);
    PatternIsToken(l.kind, l.resourceId);
    ResourceIsPart(l.resourceId, l.revision);
  }

  // ----- parsing undoes formatting -----------------------------------------------------------

  lemma ConsPart(a: string, rest: string)
    requires IsPart(a) && IsClean(rest)
    ensures IsClean(a + "/" + rest) && Split(a + "/" + rest, "/") == [a] + Split(rest, "/")
  {
    NoPairConcat(a, "/", '.');
    NoPairConcat(a + "/", rest, '.');
    LocatorTextConcat(a, "/");
    LocatorTextConcat(a + "/", rest);
    SplitCons(a, "/", rest);
  }

  lemma LastPart(a: string)
    requires IsPart(a)
    ensures IsClean(a) && Split(a, "/") == [a]
  {
    LacksContains(a, '/', "/");
    SplitNone(a, "/");
  }

  lemma {:induction false} PartsJoin(parts: seq<string>)
    requires parts != [] && forall i :: 0 <= i < |parts| ==> IsPart(parts[i])
    ensures IsClean(Join(parts, "/")) && Split(Join(parts, "/"), "/") == parts
  {
    if |parts| == 1 {
      LastPart(parts[0]);
    } else {
      var rest := parts[1..];
      PartsJoin(rest);
      ConsPart(parts[0], Join(rest, "/"));
      assert parts == [parts[0]] + rest;
    }
  }

  lemma ResourceRoundTrip(installationId: string, investigationId: string, kind: Kind, id: string, revision: Option<nat>)
    requires Lacks(id, ';') && (revision.Some? ==> revision.value <= MAX_SAFE_INTEGER)
    ensures ParseResource(installationId, investigationId, kind, id + RevisionText(revision))
            == FormatLocator(installationId, investigationId, kind, id, revision)
  {
    RevIsClean();
    if revision.Some? {
      var digits := Decimal(revision.value);
      assert id + RevisionText(revision) == id + REV + digits;
      assert Lacks(digits, ';');
      LacksContains(digits, ';', REV);
      SplitNone(digits, REV);
      SplitCons(id, REV, digits);
      DecimalRoundTrip(revision.value);
    } else {
      assert id + "" == id;
      LacksContains(id, ';', REV);
      SplitNone(id, REV);
    }
  }

  lemma CompactIsJoin(l: Locator)
    ensures CompactText(l) == Join(Components(l), "/")
  {
    JoinFive(Components(l));
  }

  lemma PartsOf(l: Locator)
    ensures ParseParts(Components(l))
            == ParseResource(l.installationId, l.investigationId, l.kind, l.resourceId + RevisionText(l.revision))
  {
    FindKindOfName(l.kind);
  }

  lemma Reparsed(l: Locator)
    requires ParseLocator(l).Ok?
    ensures FormatLocator(l.installationId, l.investigationId, l.kind, l.resourceId, l.revision) == Ok(l)
  {
    assert l == Locator(1, l.installationId, l.investigationId, l.kind, l.resourceId, l.revision,
                        Derived(l.investigationId, l.kind, l.resourceId));
  }

  /** Parsing the compact text of a valid locator returns that locator. */
  lemma ParseUndoesFormat(l: Locator)
    ensures ParseLocator(l).Ok? ==> FormatCompact(l).Ok? && ParseCompact(FormatCompact(l).value) == Ok(l)
  {
    if ParseLocator(l).Ok? {
      assert FormatCompact(l) == Ok(CompactText(l));
      FieldsAreParts(l);
      Reparsed(l);
      CompactParses(l);
    }
  }

  lemma CompactParses(l: Locator)
    requires IsPart(l.installationId) && IsPart(l.investigationId) && IsPart(Name(l.kind))
    requires IsPart(l.resourceId + RevisionText(l.revision)) && Lacks(l.resourceId, ';')
    requires l.revision.Some? ==> l.revision.value <= MAX_SAFE_INTEGER
    ensures ParseCompact(CompactText(l))
            == FormatLocator(l.installationId, l.investigationId, l.kind, l.resourceId, l.revision)
  {
    PartsAreClean(l);
    assert ParseCompact(CompactText(l)) == ParseParts(Components(l));
    PartsOf(l);
    ResourceRoundTrip(l.installationId, l.investigationId, l.kind, l.resourceId, l.revision);
  }

  // ----- formatting undoes parsing -------------------------------------------------------------

  lemma JoinFive(parts: seq<string>)
    requires |parts| == 5
    ensures Join(parts, "/") == parts[0] + "/" + (parts[1] + "/" + (parts[2] + "/" + (parts[3] + "/" + parts[4])))
  {
    assert Join(parts[4..], "/") == parts[4];
    assert parts[3..][1..] == parts[4..] && parts[2..][1..] == parts[3..] && parts[1..][1..] == parts[2..];
    assert Join(parts[3..], "/") == parts[3] + "/" + parts[4];
    assert Join(parts[2..], "/") == parts[2] + "/" + (parts[3] + "/" + parts[4]);
    assert Join(parts[1..], "/") == parts[1] + "/" + (parts[2] + "/" + (parts[3] + "/" + parts[4]));
  }

  /** Whatever text the compact parser accepts, formatting the result gives back its trimmed self. */
  lemma FormatUndoesParse(raw: string)
    requires ParseCompact(raw).Ok?
    ensures FormatCompact(ParseCompact(raw).value) == Ok(Trim(raw))
  {
    JoinSplit(Trim(raw), "/");
    CompactIsJoin(ParseCompact(raw).value);
  }

  /** Distinct valid locators have distinct compact texts. */
  lemma CompactInjective(a: Locator, b: Locator)
    requires ParseLocator(a).Ok? && ParseLocator(b).Ok? && FormatCompact(a) == FormatCompact(b)
    ensures a == b
  {
    ParseUndoesFormat(a);
    ParseUndoesFormat(b);
  }

  /** The parser looks at its input through two things: control characters and the trimmed text. */
  lemma ParseOfTrimmed(raw: string, text: string)
    requires !HasControlChars(raw) && Trim(raw) == text && !HasControlChars(text) && Trim(text) == text
    ensures ParseCompact(raw) == ParseCompact(text)
  {
  }

  /** The compact text of a locator has no control characters and nothing to trim. */
  lemma CompactIsClean(l: Locator)
    requires ParseLocator(l).Ok?
    ensures CompactText(l) != "" && !HasControlChars(CompactText(l)) && Trim(CompactText(l)) == CompactText(l)
  {
    FieldsAreParts(l);
    PartsAreClean(l);
  }

  lemma PartsAreClean(l: Locator)
    requires IsPart(l.installationId) && IsPart(l.investigationId) && IsPart(Name(l.kind))
    requires IsPart(l.resourceId + RevisionText(l.revision))
    ensures IsClean(CompactText(l)) && Split(CompactText(l), "/") == Components(l)
    ensures !HasControlChars(CompactText(l)) && Trim(CompactText(l)) == CompactText(l) && !HasForbidden(CompactText(l))
  {
    PrefixIsPart();
    PartsJoin(Components(l));
    CompactIsJoin(l);
    LocatorTextClean(CompactText(l));
  }

  /** Text is accepted exactly when, without control characters, it is the compact text of a valid locator once trimmed. */
  lemma CompactExact(raw: string)
    ensures ParseCompact(raw).Ok?
       <==> !HasControlChars(raw) && exists l :: FormatCompact(l) == Ok(Trim(raw))
  {
    if ParseCompact(raw).Ok? {
      FormatUndoesParse(raw);
    }
    if !HasControlChars(raw) && exists l :: FormatCompact(l) == Ok(Trim(raw)) {
      var l :| FormatCompact(l) == Ok(Trim(raw));
      assert ParseLocator(l).Ok? && CompactText(l) == Trim(raw);
      CompactIsClean(l);
      ParseOfTrimmed(raw, Trim(raw));
      ParseUndoesFormat(l);
    }
  }

  /** A character that is trimmed and is not a control character. */
  predicate IsPadding(c: char) {
    || c == ' ' || c == '\U{a0}' || c == '\U{1680}' || '\U{2000}' <= c <= '\U{200a}'
    || c == '\U{205f}' || c == '\U{3000}'
  }

  /** A locator text padded with spaces parses as the unpadded one. */
  lemma PaddedParses(l: Locator, before: string, after: string)
    requires ParseLocator(l).Ok?
    requires forall i :: 0 <= i < |before| ==> IsPadding(before[i])
    requires forall i :: 0 <= i < |after| ==> IsPadding(after[i])
    ensures ParseCompact(before + CompactText(l) + after) == Ok(l)
  {
    var text := CompactText(l);
    CompactIsClean(l);
    var b, a := TrimExact(text);
    TrimPadded(before, text, after);
    NoControls(before, text, after);
    ParseOfTrimmed(before + text + after, text);
    ParseUndoesFormat(l);
  }

  lemma NoControls(before: string, text: string, after: string)
    requires !HasControlChars(text)
    requires forall i :: 0 <= i < |before| ==> IsPadding(before[i])
    requires forall i :: 0 <= i < |after| ==> IsPadding(after[i])
    ensures !HasControlChars(before + text + after)
  {
    var s := before + text + after;
    forall i | 0 <= i < |s| ensures !IsControl(s[i]) {
      if |before| <= i < |before| + |text| {
        assert s[i] == text[i - |before|];
      }
    }
  }
}
