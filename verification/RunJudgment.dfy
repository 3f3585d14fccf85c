/**
 Judgment requests about an external run: the canonical order of their evidence
 links, and the idempotency intent projected from them.
 */
module RunJudgment {
  import opened Wrappers
  import opened Ordering
  import opened Text

  const LINKS_MAX: nat := 64

  datatype Link = Link(kind: string, id: string)
  datatype Judgment = Corroborates | Contradicts | InsufficientEvidence

  datatype Request = Request(
    caseId: string,
    runId: string,
    expectedSequence: nat,
    key: string,
    judgment: Judgment,
    links: seq<Link>,
    rationale: Option<string>)

  datatype Intent = Intent(
    caseId: string,
    runId: string,
    judgment: Judgment,
    links: seq<Link>,
    rationale: Option<string>)

  predicate WellFormed(link: Link) {
    && (link.kind == "artifact" || link.kind == "contribution" || link.kind == "snapshot")
    && IsUuid(link.id)
  }

  /** compareLinks < 0: by kind, then by id. */
  predicate LinkLt(a: Link, b: Link) {
    if a.kind != b.kind then LexLt(a.kind, b.kind) else LexLt(a.id, b.id)
  }

  lemma LinkStrictTotal()
    ensures StrictTotal(LinkLt)
  {
    LexStrictTotal();
    forall x, y, z | LinkLt(x, y) && LinkLt(y, z) ensures LinkLt(x, z) {
      if x.kind == z.kind && x.kind != y.kind {
        LexTransitive(x.kind, y.kind, x.kind);
        LexTrichotomy(x.kind, x.kind);
      }
    }
    forall x: Link, y: Link ensures !LinkLt(x, x) && (x != y ==> LinkLt(x, y) || LinkLt(y, x)) {
      LexTrichotomy(x.kind, y.kind);
      LexTrichotomy(x.id, y.id);
    }
  }

  /** The text under which a link is remembered while looking for duplicates. */
  function Key(link: Link): string {
    link.kind + ":" + link.id
  }

  lemma KeyInjective(a: Link, b: Link)
    requires WellFormed(a) && WellFormed(b) && Key(a) == Key(b)
    ensures a == b
  {
    var n := |a.kind|;
    assert |Key(a)| == n + 37 && |Key(b)| == |b.kind| + 37;
    assert a.kind == Key(a)[..n] && b.kind == Key(b)[..n];
    assert a.id == Key(a)[n + 1..] && b.id == Key(b)[n + 1..];
  }

  /** By kind, and within a kind by id, each by first differing character. */
  ghost predicate LinkPrecedes(a: Link, b: Link) {
    Precedes(a.kind, b.kind) || (a.kind == b.kind && Precedes(a.id, b.id))
  }

  ghost predicate InLinkOrder(links: seq<Link>) {
    forall i, j :: 0 <= i < j < |links| ==> LinkPrecedes(links[i], links[j])
  }

  /** Thirty-two lower-case hexadecimal digits in groups of 8, 4, 4, 4 and 12. */
  predicate IsUuidShaped(s: string) {
    |s| == 36 && forall i :: 0 <= i < 36 ==>
      if i in {8, 13, 18, 23} then s[i] == '-' else '0' <= s[i] <= '9' || 'a' <= s[i] <= 'f'
  }

  lemma WellFormedLinks(links: seq<Link>)
    ensures (forall i :: 0 <= i < |links| ==> WellFormed(links[i]))
       <==> && (forall i :: 0 <= i < |links| ==> links[i].kind in {"artifact", "contribution", "snapshot"})
            && (forall i :: 0 <= i < |links| ==> IsUuidShaped(links[i].id))
  {
    forall i | 0 <= i < |links|
      ensures WellFormed(links[i]) <==> links[i].kind in {"artifact", "contribution", "snapshot"} && IsUuidShaped(links[i].id)
    {
    }
  }

  lemma LinkOrder(links: seq<Link>)
    ensures InLinkOrder(links) <==> Ascending(links, LinkLt)
  {
    forall a: Link, b: Link ensures LinkPrecedes(a, b) <==> LinkLt(a, b) {
      LexByFirstDifference(a.kind, b.kind);
      LexByFirstDifference(a.id, b.id);
      LexTrichotomy(a.kind, a.kind);
    }
  }

  /** A link list accepted on the wire. */
  ghost predicate Canonical(links: seq<Link>) {
    && |links| <= 64
    && (forall i :: 0 <= i < |links| ==> links[i].kind in {"artifact", "contribution", "snapshot"})
    && (forall i :: 0 <= i < |links| ==> IsUuidShaped(links[i].id))
    && InLinkOrder(links)
  }

  method HasNoDuplicates(raw: seq<Link>) returns (ok: bool)
    requires forall i :: 0 <= i < |raw| ==> WellFormed(raw[i])
    ensures ok <==> Distinct(raw)
  {
    var seen: set<string> := {};
    for i := 0 to |raw|
      invariant seen == set k | 0 <= k < i :: Key(raw[k])
      invariant forall j, k :: 0 <= j < k < i ==> raw[j] != raw[k]
    {
      var key := Key(raw[i]);
      if key in seen {
        ghost var k :| 0 <= k < i && key == Key(raw[k]);
        KeyInjective(raw[i], raw[k]);
        return false;
      }
      assert forall k :: 0 <= k < i ==> Key(raw[k]) in seen;
      seen := seen + {key};
    }
    return true;
  }

  method AllWellFormed(raw: seq<Link>) returns (ok: bool)
    ensures ok <==> forall i :: 0 <= i < |raw| ==> WellFormed(raw[i])
  {
    for i := 0 to |raw|
      invariant forall k :: 0 <= k < i ==> WellFormed(raw[k])
    {
      if !WellFormed(raw[i]) { return false; }
    }
    return true;
  }

  method SameSequence(raw: seq<Link>, sorted: seq<Link>) returns (ok: bool)
    requires |raw| == |sorted|
    ensures ok <==> raw == sorted
  {
    for i := 0 to |raw|
      invariant forall k :: 0 <= k < i ==> raw[k] == sorted[k]
    {
      if raw[i].kind != sorted[i].kind || raw[i].id != sorted[i].id { return false; }
    }
    return true;
  }

  /** Duplicates are rejected first, then anything that differs from its own sorted copy. */
  method ParseLinks(raw: seq<Link>) returns (r: Result<seq<Link>>)
    ensures r.Ok? <==> Canonical(raw)
    ensures r.Ok? ==> r.value == raw
  {
    LinkOrder(raw);
    WellFormedLinks(raw);
    if |raw| > LINKS_MAX { return Err("links"); }
    var wellFormed := AllWellFormed(raw);
    if !wellFormed { return Err("links"); }
    var distinct := HasNoDuplicates(raw);
    if !distinct {
      NotAscending(raw);
      return Err("duplicate link");
    }
    SortedFixed(raw);
    var canonical := SameSequence(raw, Sort(raw, LinkLt));
    if !canonical { return Err("canonical lexical order"); }
    return Ok(raw);
  }

  lemma NotAscending(raw: seq<Link>)
    requires !Distinct(raw)
    ensures !Ascending(raw, LinkLt)
  {
    var i, j :| 0 <= i < j < |raw| && raw[i] == raw[j];
    LinkStrictTotal();
  }

  lemma SortedFixed(raw: seq<Link>)
    requires Distinct(raw)
    ensures Ascending(raw, LinkLt) <==> raw == Sort(raw, LinkLt)
  {
    LinkStrictTotal();
    SortAscending(raw, LinkLt);
    SortElements(raw, LinkLt);
    if Ascending(raw, LinkLt) {
      AscendingUnique(raw, Sort(raw, LinkLt), LinkLt);
    }
  }

  /** Each admissible set of links has exactly one accepted list. */
  lemma OneWireForm(links: set<Link>)
    requires forall link :: link in links ==> WellFormed(link)
    requires |links| <= LINKS_MAX
    ensures exists wire :: Canonical(wire) && Elements(wire) == links
    ensures forall a, b :: Canonical(a) && Canonical(b) && Elements(a) == links && Elements(b) == links ==> a == b
  {
    LinkStrictTotal();
    var wire := Listing(links, LinkLt);
    assert forall i :: 0 <= i < |wire| ==> wire[i] in Elements(wire);
    LinkOrder(wire);
    WellFormedLinks(wire);
    assert Canonical(wire);
    forall a, b | Canonical(a) && Canonical(b) && Elements(a) == links && Elements(b) == links ensures a == b {
      LinkOrder(a);
      LinkOrder(b);
      AscendingUnique(a, b, LinkLt);
    }
  }

  // ----- requests and their intent -------------------------------------------------

  /** normalizeMultilineText: the host's normaliser and its safety checks, with None for a rejection. */
  type Normalizer = string -> Option<string>

  /** The rationale a request carries, or None when it is rejected. */
  function Rationale(norm: Normalizer, raw: Option<string>): Option<Option<string>> {
    match raw
    case None => Some(None)
    case Some(text) =>
      match norm(text)
      case None => None
      case Some(normal) => Some(Some(normal))
  }

  ghost predicate Accepted(norm: Normalizer, raw: Request) {
    && IsUuidShaped(raw.caseId) && IsUuidShaped(raw.runId)
    && raw.expectedSequence <= MAX_SAFE_INTEGER
    && IsToken(raw.key, 7, 127)
    && Canonical(raw.links)
    && (raw.rationale.Some? ==> norm(raw.rationale.value).Some?)
  }

  method ParseRequest(norm: Normalizer, raw: Request) returns (r: Result<Request>)
    ensures r.Ok? <==> Accepted(norm, raw)
    ensures r.Ok? ==> r.value == raw.(rationale := if raw.rationale.None? then None else norm(raw.rationale.value))
  {
    if !IsUuid(raw.caseId) { return Err("caseId"); }
    if !IsUuid(raw.runId) { return Err("runId"); }
    if raw.expectedSequence > MAX_SAFE_INTEGER { return Err("expectedSequence"); }
    if !IsToken(raw.key, 7, 127) { return Err("idempotencyKey"); }
    var links := ParseLinks(raw.links);
    if links.Err? { return Err(links.at); }
    var rationale := Rationale(norm, raw.rationale);
    if rationale.None? { return Err("rationale"); }
    return Ok(Request(raw.caseId, raw.runId, raw.expectedSequence, raw.key, raw.judgment,
                      links.value, rationale.value));
  }

  method ProjectIntent(norm: Normalizer, raw: Request) returns (r: Result<Intent>)
    ensures r.Ok? <==> Accepted(norm, raw)
    ensures r.Ok? ==> r.value == IntentOf(norm, raw)
  {
    var request := ParseRequest(norm, raw);
    if request.Err? { return Err(request.at); }
    var q := request.value;
    return Ok(Intent(q.caseId, q.runId, q.judgment, q.links, q.rationale));
  }

  ghost function IntentOf(norm: Normalizer, raw: Request): Intent
    requires Accepted(norm, raw)
  {
    Intent(raw.caseId, raw.runId, raw.judgment, raw.links,
           if raw.rationale.None? then None else norm(raw.rationale.value))
  }

  /** Two requests mean the same exactly when they agree on the intent fields, links taken as a set. */
  lemma SameIntent(norm: Normalizer, a: Request, b: Request)
    requires Accepted(norm, a) && Accepted(norm, b)
    ensures IntentOf(norm, a) == IntentOf(norm, b)
            <==> && a.caseId == b.caseId
                 && a.runId == b.runId
                 && a.judgment == b.judgment
                 && (a.rationale.Some? <==> b.rationale.Some?)
                 && (a.rationale.Some? ==> norm(a.rationale.value) == norm(b.rationale.value))
                 && Elements(a.links) == Elements(b.links)
  {
    LinkStrictTotal();
    LinkOrder(a.links);
    LinkOrder(b.links);
    if Elements(a.links) == Elements(b.links) {
      AscendingUnique(a.links, b.links, LinkLt);
    }
  }
}
