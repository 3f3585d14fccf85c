/**
 Investigation resource locators: which resources exist, where the workspace
 shows them, the pathname derived for them and the compact text form.
 */
module ResourceLocator {
  import opened Wrappers
  import opened Text
  import opened Strings
  import opened FormUrl

  datatype Kind =
    | Investigation | InvestigationStage | EvidenceItem | IntakeBatch | EvidenceContext | ImportedAiRun |
    Workstream | WorkstreamAttempt | WorkstreamRerun | ComparisonFinding | ComparisonConflict | Helpfulness |
    InteractionTrace | Experiment | DiscussionMessage | TimelineEvent | Hypothesis | Action | Observation |
    DecisionRevision | Gold | ExportEvent | PortableArchiveEvent | LogWorkbenchView | LogWorkbenchBookmark |
    LogWorkbenchLine

  const KINDS: seq<Kind> := [
    Investigation, InvestigationStage, EvidenceItem, IntakeBatch, EvidenceContext, ImportedAiRun, Workstream,
    WorkstreamAttempt, WorkstreamRerun, ComparisonFinding, ComparisonConflict, Helpfulness, InteractionTrace,
    Experiment, DiscussionMessage, TimelineEvent, Hypothesis, Action, Observation, DecisionRevision, Gold,
    ExportEvent, PortableArchiveEvent, LogWorkbenchView, LogWorkbenchBookmark, LogWorkbenchLine]

  function Name(kind: Kind): string {
    match kind
    case Investigation => "investigation"
    case InvestigationStage => "investigation_stage"
    case EvidenceItem => "evidence_item"
    case IntakeBatch => "intake_batch"
    case EvidenceContext => "evidence_context"
    case ImportedAiRun => "imported_ai_run"
    case Workstream => "workstream"
    case WorkstreamAttempt => "workstream_attempt"
    case WorkstreamRerun => "workstream_rerun"
    case ComparisonFinding => "comparison_finding"
    case ComparisonConflict => "comparison_conflict"
    case Helpfulness => "helpfulness"
    case InteractionTrace => "interaction_trace"
    case Experiment => "experiment"
    case DiscussionMessage => "discussion_message"
    case TimelineEvent => "timeline_event"
    case Hypothesis => "hypothesis"
    case Action => "action"
    case Observation => "observation"
    case DecisionRevision => "decision_revision"
    case Gold => "gold"
    case ExportEvent => "export_event"
    case PortableArchiveEvent => "portable_archive_event"
    case LogWorkbenchView => "log_workbench_view"
    case LogWorkbenchBookmark => "log_workbench_bookmark"
    case LogWorkbenchLine => "log_workbench_line"
  }

  lemma NameInjective(a: Kind, b: Kind)
    requires Name(a) == Name(b)
    ensures a == b
  {
  }

  /** The enumerated kind with this wire name. */
  function FindKind(s: string, kinds: seq<Kind>): (r: Option<Kind>)
    ensures r.Some? ==> Name(r.value) == s
    ensures r.None? ==> forall k :: k in kinds ==> Name(k) != s
  {
    if kinds == [] then None
    else if Name(kinds[0]) == s then Some(kinds[0])
    else FindKind(s, kinds[1..])
  }

  lemma FindKindOfName(kind: Kind)
    ensures FindKind(Name(kind), KINDS) == Some(kind)
  {
    assert kind in KINDS;
    NameInjective(kind, FindKind(Name(kind), KINDS).value);
  }

  // ----- identities -----------------------------------------------------------------------

  predicate IsStage(s: string) {
    s == "situation" || s == "capture" || s == "analyze" || s == "compare" || s == "decide"
  }

  /** `^[1-9][0-9]{0,15}$` */
  predicate IsTimelineEventId(s: string) {
    && 1 <= |s| <= 16 && s[0] != '0'
    && forall i :: 0 <= i < |s| ==> IsDigit(s[i])
  }

  /** `^inst-[a-z0-9]{8,64}$` */
  predicate IsInstallationId(s: string) {
    && 13 <= |s| <= 69 && s[..5] == "inst-"
    && forall i :: 5 <= i < |s| ==> IsLower(s[i]) || IsDigit(s[i])
  }

  predicate IsControl(c: char) {
    || c as int <= 31 || 127 <= c as int <= 159
    || 0x200b <= c as int <= 0x200f || 0x2028 <= c as int <= 0x202f
    || 0x2060 <= c as int <= 0x206f || c as int == 0xfeff
  }

  predicate HasControlChars(s: string) {
    exists i :: 0 <= i < |s| && IsControl(s[i])
  }

  /** hasControlChars: a scan that stops at the first hit. */
  method ScanControlChars(s: string) returns (found: bool)
    ensures found <==> HasControlChars(s)
  {
    for i := 0 to |s|
      invariant forall k :: 0 <= k < i ==> !IsControl(s[k])
    {
      if IsControl(s[i]) { return true; }
    }
    return false;
  }

  predicate HasInjection(s: string) {
    || HasControlChars(s)
    || '\\' in s || Contains(s, "..")
    || Contains(s, "%2e") || Contains(s, "%2E") || Contains(s, "%2f") || Contains(s, "%2F")
    || Contains(s, "://") || '?' in s || '#' in s
  }

  predicate IdPattern(kind: Kind, id: string) {
    match kind
    case InvestigationStage => IsStage(id)
    case TimelineEvent => IsTimelineEventId(id)
    case Investigation => IsRfc4122Uuid(id)
    case _ => IsToken(id, 0, 127)
  }

  /** assertResourceId */
  predicate ResourceIdOk(kind: Kind, id: string) {
    && !HasInjection(id)
    && '/' !in id
    && IdPattern(kind, id)
    && if !kind.InvestigationStage? && !kind.TimelineEvent? && IsRfc4122Uuid(id) then true
       else if kind.InvestigationStage? || kind.TimelineEvent? || kind.Investigation? then true
       else IsToken(id, 0, 127)
  }

  /** Text made only of `[A-Za-z0-9._:-]`. */
  ghost predicate IsTokenText(s: string) {
    forall i :: 0 <= i < |s| ==> IsTokenChar(s[i])
  }

  lemma PatternIsToken(kind: Kind, id: string)
    requires IdPattern(kind, id)
    ensures id != "" && IsTokenText(id) && IsAlphanumeric(id[0])
  {
  }

  lemma TokenTextIsHarmless(s: string)
    requires IsTokenText(s)
    ensures HasInjection(s) <==> !NoPair(s, '.')
    ensures '/' !in s && !HasControlChars(s)
  {
    ContainsPair(s, '.');
    assert ['.', '.'] == "..";
    LacksContains(s, '%', "%2e");
    LacksContains(s, '%', "%2E");
    LacksContains(s, '%', "%2f");
    LacksContains(s, '%', "%2F");
    LacksContains(s, '/', "://");
  }

  /** Of all the checks on an identity only its pattern and the ban on ".." decide. */
  lemma ResourceIdExact(kind: Kind, id: string)
    ensures ResourceIdOk(kind, id) <==> IdPattern(kind, id) && NoPair(id, '.')
  {
    if IdPattern(kind, id) {
      PatternIsToken(kind, id);
      TokenTextIsHarmless(id);
    }
  }

  // ----- routing ----------------------------------------------------------------------------

  datatype Focus = Focus(
    stage: string, section: Option<string>, item: Option<string>, itemKind: Option<string>, lane: Option<string>)

  function WorkstreamRoute(id: string): Focus {
    if ':' in id then Focus("analyze", Some("workstreams"), Some(id), Some("workstream"), Some(id))
    else Focus("analyze", Some("triage-lane-runner"), Some(id), Some("triage-run"), None)
  }

  /** routedInvestigationFocus */
  function Routed(kind: Kind, id: string): Focus {
    match kind
    case Investigation => Focus("situation", Some("stage-situation"), None, None, None)
    case InvestigationStage => Focus(id, None, None, None, None)
    case EvidenceItem => Focus("analyze", Some("triage-evidence-board"), Some(id), Some("evidence"), None)
    case IntakeBatch => Focus("capture", Some("corpus-intake"), Some(id), Some("intake-batch"), None)
    case EvidenceContext => Focus("analyze", Some("triage-evidence-board"), Some(id), Some("snapshot"), None)
    case ImportedAiRun => Focus("capture", Some("triage-capture"), Some(id), Some("imported-run"), None)
    case Workstream => WorkstreamRoute(id)
    case WorkstreamAttempt => WorkstreamRoute(id)
    case WorkstreamRerun => WorkstreamRoute(id)
    case ComparisonFinding => Focus("compare", Some("cross-exam-heading"), Some(id), None, None)
    case ComparisonConflict => Focus("compare", Some("cross-exam-heading"), Some(id), None, None)
    case Helpfulness => Focus("compare", Some("cross-exam-heading"), Some(id), None, None)
    case InteractionTrace => Focus("compare", Some("candidate-comparison-heading"), Some(id), None, None)
    case Experiment => Focus("compare", Some("candidate-comparison-heading"), Some(id), None, None)
    case DiscussionMessage => Focus("situation", Some("discussion"), Some(id), Some("comment"), None)
    case TimelineEvent => Focus("capture", Some("triage-capture"), Some(id), Some("timeline"), None)
    case Hypothesis => Focus("capture", Some("triage-capture"), Some(id), Some("contribution"), None)
    case Action => Focus("capture", Some("triage-capture"), Some(id), Some("contribution"), None)
    case Observation => Focus("capture", Some("triage-capture"), Some(id), Some("contribution"), None)
    case DecisionRevision => Focus("decide", Some("decision-heading"), Some(id), None, None)
    case Gold => Focus("decide", Some("decision-heading"), Some(id), None, None)
    case ExportEvent => Focus("decide", Some("export-heading"), Some(id), None, None)
    case PortableArchiveEvent => Focus("decide", Some("export-heading"), Some(id), None, None)
    case LogWorkbenchView =>
      Focus("analyze", Some("triage-log-workbench"), Some(id), Some("log-workbench-view"), None)
    case LogWorkbenchBookmark =>
      Focus("analyze", Some("triage-log-workbench"), Some(id), Some("log-workbench-bookmark"), None)
    case LogWorkbenchLine => Focus("analyze", Some("triage-log-workbench"), Some(id), Some("log-line"), None)
  }

  // ----- pathnames --------------------------------------------------------------------------

  /** A JavaScript string that is neither null nor empty. */
  predicate Truthy(s: Option<string>) {
    s.Some? && s.value != ""
  }

  /** `encodeURIComponent` on ASCII text. */
  function EncodeComponent(s: string): string {
    if s == "" then ""
    else
      var c := s[0];
      (if IsUnreserved(c) then [c]
       else ['%', HexDigit(c as int / 16 % 16), HexDigit(c as int % 16)])
      + EncodeComponent(s[1..])
  }

  /** Decoding undoes `encodeURIComponent` on ASCII text. */
  lemma {:induction false} ComponentDecodes(s: string)
    requires IsAscii(s)
    ensures Decode(EncodeComponent(s), false) == s
  {
    if s != "" {
      ComponentDecodes(s[1..]);
      ComponentHead(s[0], EncodeComponent(s[1..]));
      assert s == [s[0]] + s[1..];
    }
  }

  predicate IsUnreserved(c: char) {
    IsAlphanumeric(c) || c in "-_.!~*'()"
  }

  lemma ComponentHead(c: char, rest: string)
    requires c < 128 as char
    ensures var head := if IsUnreserved(c) then [c] else ['%', HexDigit(c as int / 16 % 16), HexDigit(c as int % 16)];
            Decode(head + rest, false) == [c] + Decode(rest, false)
  {
    if IsUnreserved(c) {
      assert c != '%';
      assert ([c] + rest)[1..] == rest;
    } else {
      var high, low := c as int / 16 % 16, c as int % 16;
      HexReadsBack(high);
      HexReadsBack(low);
      assert (['%', HexDigit(high), HexDigit(low)] + rest)[3..] == rest;
      assert 16 * high + low == c as int;
    }
  }

  function Optional(name: string, value: Option<string>): Params {
    if Truthy(value) then [(name, value.value)] else []
  }

  /** The query parameters a focus with a section carries. */
  function FocusParams(f: Focus): Params
    requires f.section.Some?
  {
    [("section", f.section.value)] + Optional("item", f.item) + Optional("kind", f.itemKind) + Optional("lane", f.lane)
  }

  function Base(investigationId: string, stage: string): string {
    "/investigations/" + investigationId + "/" + stage
  }

  function Query(f: Focus): string {
    if !Truthy(f.section) then ""
    else "?" + Serialize(FocusParams(f)) + "#" + EncodeComponent(f.section.value)
  }

  function PathText(investigationId: string, f: Focus): string {
    Base(investigationId, f.stage) + Query(f)
  }

  predicate ValidResource(investigationId: string, kind: Kind, id: string) {
    IsRfc4122Uuid(investigationId) && ResourceIdOk(kind, id)
  }

  function Derived(investigationId: string, kind: Kind, id: string): string {
    PathText(investigationId, Routed(kind, id))
  }

  /** deriveInvestigationResourcePathname: fills the query parameters one `set` at a time. */
  method DerivePathname(investigationId: string, kind: Kind, id: string) returns (r: Result<string>)
    ensures r.Ok? <==> ValidResource(investigationId, kind, id)
    ensures r.Ok? ==> r.value == Derived(investigationId, kind, id)
  {
    if !IsRfc4122Uuid(investigationId) { return Err("investigationId"); }
    if !ResourceIdOk(kind, id) { return Err("resourceId"); }
    var path := PathFor(investigationId, Routed(kind, id));
    return Ok(path);
  }

  method PathFor(investigationId: string, f: Focus) returns (path: string)
    ensures path == PathText(investigationId, f)
  {
    path := Base(investigationId, f.stage);
    if Truthy(f.section) {
      var params := FillParams(f);
      path := path + ("?" + Serialize(params) + "#" + EncodeComponent(f.section.value));
    }
  }

  method FillParams(f: Focus) returns (params: Params)
    requires f.section.Some?
    ensures params == FocusParams(f)
  {
    params := [("section", f.section.value)];
    if Truthy(f.item) {
      SetAppends(params, "item", f.item.value);
      params := SetParam(params, "item", f.item.value);
    }
    assert forall i :: 0 <= i < |params| ==> |params[i].0| != 4 || params[i].0 == "item";
    if Truthy(f.itemKind) {
      SetAppends(params, "kind", f.itemKind.value);
      params := SetParam(params, "kind", f.itemKind.value);
    }
    assert forall i :: 0 <= i < |params| ==> params[i].0 != "lane";
    if Truthy(f.lane) {
      SetAppends(params, "lane", f.lane.value);
      params := SetParam(params, "lane", f.lane.value);
    }
  }
}
