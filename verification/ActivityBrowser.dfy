/**
 The browser's own copy of the activity contract, and the proof that it agrees
 with the server's: same routes, same pathnames, same compact text, and the same
 locators, items and notices accepted.
 */
module ActivityBrowser {
  import opened Wrappers
  import opened Ordering
  import opened Text
  import opened Strings
  import opened FormUrl
  import R = ResourceLocator
  import L = CompactLocator
  import A = ActivityItem

  // ----- the browser's patterns -------------------------------------------------------------------

  /** INVESTIGATION_RESOURCE_KINDS */
  function KindName(kind: R.Kind): string {
    match kind
    case Investigation => "investigation"
    case InvestigationStage => "investigation_stage"
    case EvidenceItem => "evidence_item"
    case IntakeBatch => "intake_batch"
    case EvidenceContext => "evidence_context"
    case ImportedAiRun => "imported_ai_run"
    case Workstream => "workstream"
    case WorkstreamAttempt => "workstream_attempt"
    case WorkstreamRerun => "workstream_rerun"
    case ComparisonFinding => "comparison_finding"
    case ComparisonConflict => "comparison_conflict"
    case Helpfulness => "helpfulness"
    case InteractionTrace => "interaction_trace"
    case Experiment => "experiment"
    case DiscussionMessage => "discussion_message"
    case TimelineEvent => "timeline_event"
    case Hypothesis => "hypothesis"
    case Action => "action"
    case Observation => "observation"
    case DecisionRevision => "decision_revision"
    case Gold => "gold"
    case ExportEvent => "export_event"
    case PortableArchiveEvent => "portable_archive_event"
    case LogWorkbenchView => "log_workbench_view"
    case LogWorkbenchBookmark => "log_workbench_bookmark"
    case LogWorkbenchLine => "log_workbench_line"
  }

  /** A character under a template: `x` a hexadecimal digit, `d` a decimal one, `v` a version, `y` a variant. */
  predicate FitsChar(c: char, t: char) {
    match t
    case 'x' => '0' <= c <= '9' || 'a' <= c <= 'f'
    case 'd' => '0' <= c <= '9'
    case 'v' => '1' <= c <= '8'
    case 'y' => c == '8' || c == '9' || c == 'a' || c == 'b'
    case _ => c == t
  }

  predicate Fits(s: string, template: string) {
    |s| == |template| && forall i :: 0 <= i < |s| ==> FitsChar(s[i], template[i])
  }

  /** UUID_RE */
  predicate IsUuidText(s: string) {
    Fits(s, "xxxxxxxx-xxxx-vxxx-yxxx-xxxxxxxxxxxx")
  }

  predicate IsWordChar(c: char) {
    '0' <= c <= '9' || 'A' <= c <= 'Z' || 'a' <= c <= 'z'
  }

  /** INSTALLATION_ID_RE */
  predicate IsInstallation(s: string) {
    && |s| >= 5 && s[0] == 'i' && s[1] == 'n' && s[2] == 's' && s[3] == 't' && s[4] == '-'
    && 8 <= |s| - 5 <= 64
    && forall i :: 5 <= i < |s| ==> 'a' <= s[i] <= 'z' || '0' <= s[i] <= '9'
  }

  /** resourceIdPattern */
  predicate IsResourceId(kind: R.Kind, s: string) {
    match kind
    case InvestigationStage =>
      s == "situation" || s == "capture" || s == "analyze" || s == "compare" || s == "decide"
    case TimelineEvent =>
      && s != "" && '1' <= s[0] <= '9' && |s| - 1 <= 15
      && forall i :: 1 <= i < |s| ==> '0' <= s[i] <= '9'
    case Investigation => IsUuidText(s)
    case _ =>
      && s != "" && IsWordChar(s[0]) && |s| - 1 <= 127
      && forall i :: 1 <= i < |s| ==> IsWordChar(s[i]) || s[i] == '.' || s[i] == '_' || s[i] == ':' || s[i] == '-'
  }

  predicate IsForbiddenCode(code: int) {
    if code <= 31 || (code >= 127 && code <= 159) then true
    else if code >= 0x200b && code <= 0x200f then true
    else if code >= 0x2028 && code <= 0x202f then true
    else if code >= 0x2060 && code <= 0x206f then true
    else code == 0xfeff
  }

  /** hasControlChars */
  predicate HasForbiddenCode(s: string) {
    exists i :: 0 <= i < |s| && IsForbiddenCode(s[i] as int)
  }

  method ScanForbidden(s: string) returns (found: bool)
    ensures found <==> HasForbiddenCode(s)
  {
    for i := 0 to |s|
      invariant forall k :: 0 <= k < i ==> !IsForbiddenCode(s[k] as int)
    {
      if IsForbiddenCode(s[i] as int) { return true; }
    }
    return false;
  }

  predicate IsHexAnyCase(c: char) {
    '0' <= c <= '9' || 'a' <= c <= 'f' || 'A' <= c <= 'F'
  }

  predicate AllHex(s: string) {
    forall i :: 0 <= i < |s| ==> IsHexAnyCase(s[i])
  }

  /** SHA256_RE */
  predicate IsDigest(s: string) {
    |s| == 64 && forall i :: 0 <= i < |s| ==> FitsChar(s[i], 'x')
  }

  predicate IsZoneText(s: string) {
    s == "Z" || Fits(s, "+dd:dd") || Fits(s, "-dd:dd")
  }

  /** TIMESTAMP_RE */
  predicate IsTime(s: string) {
    && |s| > 19 && Fits(s[..19], "dddd-dd-ddTdd:dd:dd")
    && (IsZoneText(s[19..]) || exists n :: 1 <= n <= 9 && FractionThenZone(s[19..], n))
  }

  predicate FractionThenZone(s: string, n: nat) {
    |s| > n && s[0] == '.' && (forall i :: 1 <= i <= n ==> '0' <= s[i] <= '9') && IsZoneText(s[n + 1..])
  }

  /** The text starts with `p`, which is in lower case, in any case. */
  predicate StartsAnyCase(s: string, p: string) {
    |p| <= |s| && forall i :: 0 <= i < |p| ==> s[i] == p[i] || ('A' <= s[i] <= 'Z' && s[i] as int + 32 == p[i] as int)
  }

  predicate Announces(s: string, p: string) {
    StartsAnyCase(s, p) && |p| < |s| && (s[|p|] == '-' || s[|p|] == '_' || s[|p|] == ':')
  }

  predicate IsAnnounced(s: string) {
    || Announces(s, "pkg") || Announces(s, "package") || Announces(s, "fp") || Announces(s, "fingerprint")
    || Announces(s, "hash") || Announces(s, "sha256")
  }

  predicate IsShortHash(s: string) {
    || (|s| >= 8 && AllHex(s))
    || (|s| >= 9 && s[|s| - 1] == '\U{2026}' && AllHex(s[..|s| - 1]))
    || (|s| >= 11 && s[|s| - 3] == '.' && s[|s| - 2] == '.' && s[|s| - 1] == '.' && AllHex(s[..|s| - 3]))
  }

  /** OPAQUE_EVENT_NAME_RE, with an underscore */
  predicate IsEventText(s: string) {
    && |s| >= 1 && 'a' <= s[0] <= 'z' && 2 <= |s| - 1 <= 64
    && (forall i :: 1 <= i < |s| ==> 'a' <= s[i] <= 'z' || '0' <= s[i] <= '9' || s[i] == '_')
    && '_' in s
  }

  // ----- the browser's checks ---------------------------------------------------------------------

  /** `/%2[ef]/i` */
  predicate HasEscapedDotOrSlash(s: string) {
    exists i :: 0 <= i < |s| && EscapeAt(s, i)
  }

  predicate EscapeAt(s: string, i: nat) {
    i + 2 < |s| && s[i] == '%' && s[i + 1] == '2' && s[i + 2] in "efEF"
  }

  predicate HasInjection(s: string) {
    || HasForbiddenCode(s) || '\\' in s || Contains(s, "..")
    || HasEscapedDotOrSlash(s) || Contains(s, "://") || '?' in s || '#' in s
  }

  predicate ResourceIdOk(kind: R.Kind, id: string) {
    !HasInjection(id) && !('/' in id || !IsResourceId(kind, id))
  }

  type Route = (string, Option<string>, Option<string>, Option<string>, Option<string>)

  /** routedFocus: stage, section, item, item kind, lane. */
  function RoutedFocus(kind: R.Kind, id: string): Route {
    match kind
    case Investigation => ("situation", Some("stage-situation"), None, None, None)
    case InvestigationStage => (id, None, None, None, None)
    case EvidenceItem => ("analyze", Some("triage-evidence-board"), Some(id), Some("evidence"), None)
    case IntakeBatch => ("capture", Some("corpus-intake"), Some(id), Some("intake-batch"), None)
    case EvidenceContext => ("analyze", Some("triage-evidence-board"), Some(id), Some("snapshot"), None)
    case ImportedAiRun => ("capture", Some("triage-capture"), Some(id), Some("imported-run"), None)
    case Workstream | WorkstreamAttempt | WorkstreamRerun =>
      if ':' in id then ("analyze", Some("workstreams"), Some(id), Some("workstream"), Some(id))
      else ("analyze", Some("triage-lane-runner"), Some(id), Some("triage-run"), None)
    case ComparisonFinding | ComparisonConflict | Helpfulness =>
      ("compare", Some("cross-exam-heading"), Some(id), None, None)
    case InteractionTrace | Experiment =>
      ("compare", Some("candidate-comparison-heading"), Some(id), None, None)
    case DiscussionMessage => ("situation", Some("discussion"), Some(id), Some("comment"), None)
    case TimelineEvent => ("capture", Some("triage-capture"), Some(id), Some("timeline"), None)
    case Hypothesis | Action | Observation =>
      ("capture", Some("triage-capture"), Some(id), Some("contribution"), None)
    case DecisionRevision | Gold => ("decide", Some("decision-heading"), Some(id), None, None)
    case ExportEvent | PortableArchiveEvent => ("decide", Some("export-heading"), Some(id), None, None)
    case LogWorkbenchView => ("analyze", Some("triage-log-workbench"), Some(id), Some("log-workbench-view"), None)
    case LogWorkbenchBookmark =>
      ("analyze", Some("triage-log-workbench"), Some(id), Some("log-workbench-bookmark"), None)
    case LogWorkbenchLine => ("analyze", Some("triage-log-workbench"), Some(id), Some("log-line"), None)
  }

  function RoutePath(investigationId: string, route: Route): string {
    var (stage, section, item, itemKind, lane) := route;
    var base := "/investigations/" + investigationId + "/" + stage;
    if !R.Truthy(section) then base
    else
      var params := [("section", section.value)]
        + (if R.Truthy(item) then [("item", item.value)] else [])
        + (if R.Truthy(itemKind) then [("kind", itemKind.value)] else [])
        + (if R.Truthy(lane) then [("lane", lane.value)] else []);
      base + ("?" + Serialize(params) + "#" + R.EncodeComponent(section.value))
  }

  /** derivePathname: unlike the server it leaves the investigation id to its caller. */
  function DerivePathname(investigationId: string, kind: R.Kind, id: string): Result<string> {
    if !ResourceIdOk(kind, id) then Err("locator.resourceId")
    else Ok(RoutePath(investigationId, RoutedFocus(kind, id)))
  }

  /** assertLocator */
  function CheckLocator(l: L.Locator): Result<()> {
    CheckFields(l, ResourceIdOk(l.kind, l.resourceId), DerivePathname(l.investigationId, l.kind, l.resourceId))
  }

  function CheckFields(l: L.Locator, idOk: bool, derived: Result<string>): Result<()> {
    if l.revision.Some? && l.revision.value > MAX_SAFE_INTEGER then Err("locator.revision")
    else if l.version != 1 || !IsInstallation(l.installationId) then Err("locator")
    else if !IsUuidText(l.investigationId) then Err("locator")
    else if !idOk then Err("locator.resourceId")
    else if l.kind.DecisionRevision? && l.revision.None? then Err("locator.revision")
    else if l.kind.Investigation? && l.resourceId != l.investigationId then Err("locator.resourceId")
    else
      var path :- derived;
      if l.pathname != path || Contains(l.pathname, "..") || Contains(l.pathname, "//") then Err("locator.pathname")
      else Ok(())
  }

  /** compactInvestigationLocator */
  function Compact(l: L.Locator): Result<string> {
    var _ :- CheckLocator(l);
    Ok(Printed(l))
  }

  function Printed(l: L.Locator): string {
    "cdl.v1/" + l.installationId + "/" + l.investigationId + "/" + KindName(l.kind) + "/" + l.resourceId
    + match l.revision case None => "" case Some(n) => ";rev=" + Decimal(n)
  }

  predicate LooksOpaque(value: string) {
    var trimmed := Trim(value);
    if trimmed == "" || IsUuidText(trimmed) || (|trimmed| == 64 && AllHex(trimmed)) || IsInstallation(trimmed) then true
    else if IsAnnounced(trimmed) then true
    else if (|trimmed| >= 32 && AllHex(trimmed)) || IsShortHash(trimmed) then true
    else IsEventText(trimmed)
  }

  predicate IsDisplayText(value: string) {
    !(HasForbiddenCode(value) || LooksOpaque(value))
  }

  /** assertItem */
  function CheckItem(item: A.Item): Result<()> {
    CheckItemWith(item, CheckLocator(item.locator).Ok?, IsDisplayText)
  }

  function CheckItemWith(item: A.Item, locatorOk: bool, displayOk: string -> bool): Result<()> {
    if !IsDigest(item.activityId) || !IsTime(item.occurredAt) || !IsUuidText(item.investigationId) then
      Err("items")
    else if !locatorOk then Err("locator")
    else if item.locator.investigationId != item.investigationId || item.resolvedRoute != item.locator.pathname then
      Err("resolvedRoute")
    else if item.revision != item.locator.revision then Err("revision")
    else if !displayOk(item.actorName) then Err("actorLabel")
    else if !displayOk(item.investigationTitle) then Err("investigationTitle")
    else if !displayOk(item.summary) then Err("summary")
    else if item.secondary.Some? && !displayOk(item.secondary.value.name) then Err("secondaryContext.label")
    else if item.secondary.Some? && !displayOk(item.secondary.value.value) then Err("secondaryContext.value")
    else if item.humanFinding && (item.provenance.AiGenerated? || item.provenance.Imported?) then Err("humanFinding")
    else Ok(())
  }

  /** The right number and every required notice; no test for duplicates. */
  ghost predicate NoticesOk(notices: seq<A.Notice>) {
    |notices| == |A.NOTICES| && !exists i :: 0 <= i < |A.NOTICES| && A.NOTICES[i] !in notices
  }

  /** `^[A-Za-z0-9_-]{8,4096}$` */
  predicate IsOpaqueCursor(s: string) {
    8 <= |s| <= 4096 && forall i :: 0 <= i < |s| ==> IsAlphanumeric(s[i]) || s[i] == '_' || s[i] == '-'
  }

  ghost predicate PageOk(page: A.Page) {
    && |page.items| <= 100
    && (forall i :: 0 <= i < |page.items| ==> CheckItem(page.items[i]).Ok?)
    && (page.nextCursor.Some? ==> IsOpaqueCursor(page.nextCursor.value))
    && NoticesOk(page.notices)
  }

  // ----- agreement ------------------------------------------------------------------------------------

  lemma EscapeAtParts(s: string, i: nat)
    ensures EscapeAt(s, i) <==> At(s, i, "%2e") || At(s, i, "%2E") || At(s, i, "%2f") || At(s, i, "%2F")
  {
    if i + 2 < |s| {
      assert s[i..i + 3] == [s[i], s[i + 1], s[i + 2]];
    }
  }

  lemma EscapesAgree(s: string)
    ensures HasEscapedDotOrSlash(s)
            <==> Contains(s, "%2e") || Contains(s, "%2E") || Contains(s, "%2f") || Contains(s, "%2F")
  {
    forall i: nat
      ensures EscapeAt(s, i) <==> At(s, i, "%2e") || At(s, i, "%2E") || At(s, i, "%2f") || At(s, i, "%2F")
    {
      EscapeAtParts(s, i);
    }
  }

  /** Both sides name the same kinds alike. */
  lemma KindsAgree(kind: R.Kind)
    ensures KindName(kind) == R.Name(kind)
  {
  }

  lemma UuidAgrees(s: string)
    ensures IsUuidText(s) <==> IsRfc4122Uuid(s)
  {
  }

  lemma InstallationAgrees(s: string)
    ensures IsInstallation(s) <==> R.IsInstallationId(s)
  {
    if |s| >= 5 {
      assert s[..5] == [s[0], s[1], s[2], s[3], s[4]];
      assert "inst-" == ['i', 'n', 's', 't', '-'];
    }
  }

  lemma ControlsAgree(s: string)
    ensures HasForbiddenCode(s) <==> R.HasControlChars(s)
  {
    forall i | 0 <= i < |s| ensures IsForbiddenCode(s[i] as int) <==> R.IsControl(s[i]) {
    }
  }

  lemma PatternsAgree(kind: R.Kind, s: string)
    ensures IsResourceId(kind, s) <==> R.IdPattern(kind, s)
  {
    UuidAgrees(s);
    if s != "" {
      forall i | 0 <= i < |s| ensures IsWordChar(s[i]) <==> IsAlphanumeric(s[i]) {
      }
    }
  }

  lemma ResourceIdAgrees(kind: R.Kind, id: string)
    ensures ResourceIdOk(kind, id) <==> R.ResourceIdOk(kind, id)
  {
    EscapesAgree(id);
    ControlsAgree(id);
    PatternsAgree(kind, id);
    R.ResourceIdExact(kind, id);
  }

  lemma RouteAgrees(kind: R.Kind, id: string)
    ensures var f := R.Routed(kind, id);
            RoutedFocus(kind, id) == (f.stage, f.section, f.item, f.itemKind, f.lane)
  {
  }

  lemma RoutePathAgrees(investigationId: string, f: R.Focus)
    ensures RoutePath(investigationId, (f.stage, f.section, f.item, f.itemKind, f.lane))
            == R.PathText(investigationId, f)
  {
    var base := R.Base(investigationId, f.stage);
    assert base + "" == base;
  }

  /** Both sides derive the same pathname for every resource identity the server accepts. */
  lemma PathnameAgrees(investigationId: string, kind: R.Kind, id: string)
    ensures DerivePathname(investigationId, kind, id)
            == if R.ResourceIdOk(kind, id) then Ok(R.Derived(investigationId, kind, id)) else Err("locator.resourceId")
  {
    ResourceIdAgrees(kind, id);
    RouteAgrees(kind, id);
    RoutePathAgrees(investigationId, R.Routed(kind, id));
  }

  /** Both sides accept exactly the same locators. */
  lemma LocatorAgrees(l: L.Locator)
    ensures CheckLocator(l).Ok? <==> L.ParseLocator(l).Ok?
  {
    ResourceIdAgrees(l.kind, l.resourceId);
    PathnameAgrees(l.investigationId, l.kind, l.resourceId);
    var idOk := R.ResourceIdOk(l.kind, l.resourceId);
    FieldsAgree(l, idOk, R.Derived(l.investigationId, l.kind, l.resourceId));
  }

  lemma FieldsAgree(l: L.Locator, idOk: bool, path: string)
    ensures CheckFields(l, idOk, if idOk then Ok(path) else Err("locator.resourceId")).Ok?
            <==> L.CheckFields(l, idOk, path).Ok?
  {
    UuidAgrees(l.investigationId);
    InstallationAgrees(l.installationId);
  }

  /** Both sides print the same compact text. */
  lemma CompactAgrees(l: L.Locator)
    ensures Compact(l).Ok? <==> L.FormatCompact(l).Ok?
    ensures Compact(l).Ok? ==> Compact(l) == L.FormatCompact(l)
  {
    LocatorAgrees(l);
    PrintedAgrees(l);
  }

  lemma PrintedAgrees(l: L.Locator)
    ensures Printed(l) == L.CompactText(l)
  {
    KindsAgree(l.kind);
    CompactTextAgrees(l.installationId, l.investigationId, R.Name(l.kind), l.resourceId, L.RevisionText(l.revision));
  }

  lemma CompactTextAgrees(a: string, b: string, c: string, d: string, rev: string)
    ensures "cdl.v1/" + a + "/" + b + "/" + c + "/" + d + rev
            == "cdl.v1" + "/" + (a + "/" + (b + "/" + (c + "/" + (d + rev))))
  {
    assert "cdl.v1/" == "cdl.v1" + "/";
  }

  lemma HexAgrees(s: string)
    ensures AllHex(s) <==> A.IsHexText(s, 0)
    ensures |s| == 64 && AllHex(s) <==> IsHex64(A.LowerText(s))
  {
    forall i | 0 <= i < |s| ensures IsHexAnyCase(s[i]) <==> IsLowerHex(A.Lower(s[i])) {
    }
    assert forall i :: 0 <= i < |s| ==> A.LowerText(s)[i] == A.Lower(s[i]);
  }

  lemma DigestAgrees(s: string)
    ensures IsDigest(s) <==> IsHex64(s)
  {
    forall i | 0 <= i < |s| ensures FitsChar(s[i], 'x') <==> IsLowerHex(s[i]) {
    }
  }

  lemma ShortHashAgrees(s: string)
    ensures IsShortHash(s) <==> A.IsTruncatedHash(s)
  {
    HexAgrees(s);
    if |s| >= 1 { HexAgrees(s[..|s| - 1]); }
    if |s| >= 3 {
      HexAgrees(s[..|s| - 3]);
      assert s[|s| - 3..] == [s[|s| - 3], s[|s| - 2], s[|s| - 1]] && "..." == ['.', '.', '.'];
    }
  }

  lemma StartAgrees(s: string, p: string)
    requires forall i :: 0 <= i < |p| ==> !('A' <= p[i] <= 'Z')
    ensures StartsAnyCase(s, p) <==> At(A.LowerText(s), 0, p)
  {
    var t := A.LowerText(s);
    if |p| <= |s| {
      forall i | 0 <= i < |p|
        ensures t[..|p|][i] == p[i] <==> s[i] == p[i] || ('A' <= s[i] <= 'Z' && s[i] as int + 32 == p[i] as int)
      {
        assert t[i] == A.Lower(s[i]);
      }
    }
  }

  lemma AnnounceAgrees(s: string, p: string)
    requires forall i :: 0 <= i < |p| ==> !('A' <= p[i] <= 'Z')
    ensures Announces(s, p) <==> A.PrefixedBy(s, p)
  {
    StartAgrees(s, p);
    assert "-_:" == ['-', '_', ':'];
  }

  lemma AnnouncedAgrees(s: string)
    ensures IsAnnounced(s) <==> A.HasOpaquePrefix(s)
  {
    AnnounceAgrees(s, "pkg");
    AnnounceAgrees(s, "package");
    AnnounceAgrees(s, "fp");
    AnnounceAgrees(s, "fingerprint");
    AnnounceAgrees(s, "hash");
    AnnounceAgrees(s, "sha256");
  }

  lemma EventAgrees(s: string)
    ensures IsEventText(s) <==> A.IsEventName(s) && '_' in s
  {
  }

  lemma ZoneAgrees(s: string)
    ensures IsZoneText(s) <==> A.IsZone(s)
  {
    assert "+dd:dd" == ['+', 'd', 'd', ':', 'd', 'd'] && "-dd:dd" == ['-', 'd', 'd', ':', 'd', 'd'];
  }

  lemma ClockAgrees(s: string)
    requires |s| >= 20
    ensures Fits(s[..19], "dddd-dd-ddTdd:dd:dd") <==> A.HasClock(s)
  {
    assert forall i :: 0 <= i < 19 ==> s[..19][i] == s[i];
  }

  lemma FractionAgrees(s: string, n: nat)
    requires 1 <= n <= 9
    ensures FractionThenZone(s, n) <==> n + 1 <= |s| && A.IsFraction(s[..n + 1]) && A.IsZone(s[n + 1..])
  {
    if |s| > n {
      ZoneAgrees(s[n + 1..]);
      assert forall i :: 0 <= i <= n ==> s[..n + 1][i] == s[i];
    }
  }

  /** A tail that starts with no fraction, or with one of n digits. */
  lemma TailAgrees(s: string)
    ensures IsZoneText(s) || (exists n :: 1 <= n <= 9 && FractionThenZone(s, n)) <==> A.HasZone(s)
  {
    ZoneAgrees(s);
    if IsZoneText(s) {
      assert s[..0] == "" && s[0..] == s;
      assert A.ZoneAt(s, 0);
    }
    if n :| 1 <= n <= 9 && FractionThenZone(s, n) {
      FractionAgrees(s, n);
      assert A.ZoneAt(s, n + 1);
    }
    if k :| 0 <= k <= |s| && A.ZoneAt(s, k) {
      if k > 0 {
        FractionAgrees(s, k - 1);
      } else {
        assert s[0..] == s;
      }
    }
  }

  lemma TimeAgrees(s: string)
    ensures IsTime(s) <==> A.IsTimestamp(s)
  {
    if |s| >= 20 {
      ClockAgrees(s);
      TailAgrees(s[19..]);
    }
  }

  lemma DisplayTextAgrees(value: string)
    ensures IsDisplayText(value) <==> A.SafePresentation(value)
  {
    var trimmed := Trim(value);
    ControlsAgree(value);
    UuidAgrees(trimmed);
    InstallationAgrees(trimmed);
    HexAgrees(trimmed);
    AnnouncedAgrees(trimmed);
    ShortHashAgrees(trimmed);
    EventAgrees(trimmed);
  }

  lemma DisplayChecksAgree()
    ensures forall s :: IsDisplayText(s) <==> A.SafePresentation(s)
  {
    forall s ensures IsDisplayText(s) <==> A.SafePresentation(s) {
      DisplayTextAgrees(s);
    }
  }

  lemma ItemPatternsAgree(item: A.Item)
    ensures IsDigest(item.activityId) <==> IsHex64(item.activityId)
    ensures IsTime(item.occurredAt) <==> A.IsTimestamp(item.occurredAt)
    ensures IsUuidText(item.investigationId) <==> IsRfc4122Uuid(item.investigationId)
  {
    DigestAgrees(item.activityId);
    TimeAgrees(item.occurredAt);
    UuidAgrees(item.investigationId);
  }

  /** Both sides accept exactly the same activity items. */
  lemma ItemAgrees(item: A.Item)
    ensures CheckItem(item).Ok? <==> A.CheckItem(item).Ok?
  {
    LocatorAgrees(item.locator);
    DisplayChecksAgree();
    ItemPatternsAgree(item);
    ItemChecksAgree(item, CheckLocator(item.locator).Ok?, IsDisplayText, A.SafePresentation);
  }

  lemma ItemChecksAgree(item: A.Item, locatorOk: bool, f: string -> bool, g: string -> bool)
    requires forall s :: f(s) <==> g(s)
    requires IsDigest(item.activityId) <==> IsHex64(item.activityId)
    requires IsTime(item.occurredAt) <==> A.IsTimestamp(item.occurredAt)
    requires IsUuidText(item.investigationId) <==> IsRfc4122Uuid(item.investigationId)
    ensures CheckItemWith(item, locatorOk, f).Ok? <==> A.CheckItemWith(item, locatorOk, g).Ok?
  {
  }

  /** As many entries as required notices, covering them all, leave no room for a duplicate. */
  lemma Pigeonhole<T>(required: seq<T>, given: seq<T>)
    requires Distinct(required) && |given| == |required|
    requires forall i :: 0 <= i < |required| ==> required[i] in given
    ensures Distinct(given)
  {
    DistinctSize(required);
    DistinctSize(given);
    assert Elements(required) <= Elements(given);
    SubsetSize(Elements(required), Elements(given));
  }

  lemma NoticesAgree(notices: seq<A.Notice>)
    ensures NoticesOk(notices) <==> A.ExactNotices(notices)
  {
    assert Distinct(A.NOTICES);
    if NoticesOk(notices) {
      Pigeonhole(A.NOTICES, notices);
      DistinctSize(notices);
    }
  }

  /**
   Server cursors being opaque tokens, the server accepts a page exactly when the
   browser does and the next cursor, if any, decodes.
   */
  lemma PageAgrees(cursorOk: string -> bool, page: A.Page)
    requires forall c :: cursorOk(c) ==> IsOpaqueCursor(c)
    ensures A.PageOk(cursorOk, page)
       <==> PageOk(page) && (page.nextCursor.Some? ==> cursorOk(page.nextCursor.value))
  {
    NoticesAgree(page.notices);
    forall i | 0 <= i < |page.items|
      ensures CheckItem(page.items[i]).Ok? <==> A.CheckItem(page.items[i]).Ok?
    {
      ItemAgrees(page.items[i]);
    }
  }

  /** A token that is no cursor: the browser takes the page, the server does not. */
  lemma OpaqueCursorNotEnough(cursorOk: string -> bool, cursor: string)
    requires IsOpaqueCursor(cursor) && !cursorOk(cursor)
    ensures var page := A.Page([], Some(cursor), A.NOTICES);
            PageOk(page) && !A.PageOk(cursorOk, page)
  {
  }
}
