/** Activity rows and pages as the server contract checks them. */
module ActivityItem {
  import opened Wrappers
  import opened Ordering
  import opened Text
  import opened Strings
  import opened ResourceLocator
  import opened CompactLocator

  datatype Provenance = Human | Imported | System | AiGenerated | HistoricalRestored
  datatype Secondary = Secondary(name: string, value: string)

  datatype Item = Item(
    activityId: string,
    occurredAt: string,
    actorName: string,
    investigationId: string,
    investigationTitle: string,
    summary: string,
    locator: Locator,
    resolvedRoute: string,
    provenance: Provenance,
    revision: Option<nat>,
    secondary: Option<Secondary>,
    humanFinding: bool)

  datatype Page = Page(items: seq<Item>, nextCursor: Option<string>, notices: seq<Notice>)

  const PAGE_CAP: nat := 100

  /** The four notices every page carries; the wire shape admits no other text. */
  datatype Notice = ProjectionOnly | NotAuthorization | NeverHumanFinding | AttributionOnly

  const NOTICES: seq<Notice> := [ProjectionOnly, NotAuthorization, NeverHumanFinding, AttributionOnly]

  // ----- patterns shared by both contracts ------------------------------------------------------

  /** `^\d{4}-\d{2}-\d{2}T\d{2}:\d{2}:\d{2}(\.\d{1,9})?(Z|[+-]\d{2}:\d{2})$` */
  predicate IsTimestamp(s: string) {
    |s| >= 20 && HasClock(s) && HasZone(s[19..])
  }

  predicate HasClock(s: string)
    requires |s| >= 20
  {
    forall i :: 0 <= i < 19 ==>
      if i == 4 || i == 7 then s[i] == '-' else if i == 10 then s[i] == 'T'
      else if i == 13 || i == 16 then s[i] == ':' else IsDigit(s[i])
  }

  /** A fraction, if any, and a zone. */
  predicate HasZone(s: string) {
    exists k :: 0 <= k <= |s| && ZoneAt(s, k)
  }

  predicate ZoneAt(s: string, k: nat)
    requires k <= |s|
  {
    IsFraction(s[..k]) && IsZone(s[k..])
  }

  predicate IsFraction(s: string) {
    s == "" || (2 <= |s| <= 10 && s[0] == '.' && forall i :: 1 <= i < |s| ==> IsDigit(s[i]))
  }

  predicate IsZone(s: string) {
    || s == "Z"
    || (&& |s| == 6 && (s[0] == '+' || s[0] == '-') && s[3] == ':'
        && IsDigit(s[1]) && IsDigit(s[2]) && IsDigit(s[4]) && IsDigit(s[5]))
  }

  function Lower(c: char): char {
    if 'A' <= c <= 'Z' then (c as int + 32) as char else c
  }

  function LowerText(s: string): (r: string)
    ensures |r| == |s|
  {
    seq(|s|, i requires 0 <= i < |s| => Lower(s[i]))
  }

  predicate IsHexText(s: string, least: nat) {
    |s| >= least && forall i :: 0 <= i < |s| ==> IsLowerHex(Lower(s[i]))
  }

  predicate PrefixedBy(s: string, p: string) {
    At(LowerText(s), 0, p) && |p| < |s| && s[|p|] in "-_:"
  }

  /** `^(pkg|package|fp|fingerprint|hash|sha256)[-_:]`, ignoring case. */
  predicate HasOpaquePrefix(s: string) {
    || PrefixedBy(s, "pkg") || PrefixedBy(s, "package") || PrefixedBy(s, "fp") || PrefixedBy(s, "fingerprint")
    || PrefixedBy(s, "hash") || PrefixedBy(s, "sha256")
  }

  /** `^[0-9a-f]{8,}(…|\.{3})?$`, ignoring case. */
  predicate IsTruncatedHash(s: string) {
    || IsHexText(s, 8)
    || (|s| >= 1 && s[|s| - 1] == '\U{2026}' && IsHexText(s[..|s| - 1], 8))
    || (|s| >= 3 && s[|s| - 3..] == "..." && IsHexText(s[..|s| - 3], 8))
  }

  /** `^[a-z][a-z0-9_]{2,64}$` */
  predicate IsEventName(s: string) {
    && 3 <= |s| <= 65 && IsLower(s[0])
    && forall i :: 0 <= i < |s| ==> IsLower(s[i]) || IsDigit(s[i]) || s[i] == '_'
  }

  // ----- the server's checks ----------------------------------------------------------------------

  predicate LooksOpaque(value: string) {
    var trimmed := Trim(value);
    if trimmed == "" then true
    else if IsRfc4122Uuid(trimmed) then true
    else if IsHex64(LowerText(trimmed)) then true
    else if IsInstallationId(trimmed) then true
    else if HasOpaquePrefix(trimmed) then true
    else if IsHexText(trimmed, 32) then true
    else if IsTruncatedHash(trimmed) then true
    else IsEventName(trimmed) && '_' in trimmed
  }

  predicate SafePresentation(value: string) {
    !HasControlChars(value) && !LooksOpaque(value)
  }

  /** assertActivityItem */
  function CheckItem(item: Item): Result<()> {
    CheckItemWith(item, ParseLocator(item.locator).Ok?, SafePresentation)
  }

  /** The item's own checks, given the verdict on its locator and the test for display text. */
  function CheckItemWith(item: Item, locatorOk: bool, displayOk: string -> bool): Result<()> {
    if !IsTimestamp(item.occurredAt) then Err("occurredAt")
    else if !IsHex64(item.activityId) then Err("activityId")
    else if !IsRfc4122Uuid(item.investigationId) then Err("investigationId")
    else if !locatorOk then Err("locator")
    else if item.locator.investigationId != item.investigationId then Err("locator.investigationId")
    else if item.resolvedRoute != item.locator.pathname then Err("resolvedRoute")
    else if item.revision != item.locator.revision then Err("revision")
    else if !displayOk(item.actorName) then Err("actorLabel")
    else if !displayOk(item.investigationTitle) then Err("investigationTitle")
    else if !displayOk(item.summary) then Err("summary")
    else if item.secondary.Some? && !displayOk(item.secondary.value.name) then Err("secondaryContext.label")
    else if item.secondary.Some? && !displayOk(item.secondary.value.value) then Err("secondaryContext.value")
    else if item.humanFinding && item.provenance.AiGenerated? then Err("humanFinding")
    else if item.humanFinding && item.provenance.Imported? then Err("humanFinding")
    else Ok(())
  }

  /** assertExactNotices: the right number, no duplicates, and every required notice. */
  ghost predicate ExactNotices(notices: seq<Notice>) {
    && |notices| == |NOTICES|
    && |Elements(notices)| == |notices|
    && forall i :: 0 <= i < |NOTICES| ==> NOTICES[i] in notices
  }

  /** `cursorOk` stands for the server's decoding of the opaque cursor. */
  ghost predicate PageOk(cursorOk: string -> bool, page: Page) {
    && |page.items| <= PAGE_CAP
    && (forall i :: 0 <= i < |page.items| ==> CheckItem(page.items[i]).Ok?)
    && (page.nextCursor.Some? ==> cursorOk(page.nextCursor.value))
    && ExactNotices(page.notices)
  }
}
