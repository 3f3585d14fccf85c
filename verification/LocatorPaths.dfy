/**
 Derived pathnames are faithful and safe: two valid resources share a pathname
 exactly when they are shown at the same place of the same investigation, and no
 pathname contains ".." or "//".
 */
module LocatorPaths {
  import opened Wrappers
  import opened Text
  import opened Strings
  import opened FormUrl
  import opened ResourceLocator

  /** Letters and hyphens: the vocabulary of stages, sections and item kinds. */
  ghost predicate IsSlug(s: string) {
    s != "" && forall i :: 0 <= i < |s| ==> IsLower(s[i]) || s[i] == '-'
  }

  ghost predicate IsItem(s: string) {
    s != "" && IsTokenText(s) && IsAlphanumeric(s[0]) && NoPair(s, '.')
  }

  ghost predicate WellFormed(f: Focus) {
    && IsStage(f.stage)
    && (f.section.Some? ==> IsSlug(f.section.value))
    && (f.itemKind.Some? ==> IsSlug(f.itemKind.value))
    && (f.item.Some? ==> IsItem(f.item.value))
    && (f.lane.Some? ==> IsItem(f.lane.value))
    && (f.section.None? ==> f.item.None? && f.itemKind.None? && f.lane.None?)
  }

  lemma RoutedWellFormed(kind: Kind, id: string)
    requires ResourceIdOk(kind, id)
    ensures WellFormed(Routed(kind, id))
  {
    ResourceIdExact(kind, id);
    PatternIsToken(kind, id);
    RoutedShape(kind, id);
  }

  lemma SectionSlugs()
    ensures IsSlug("stage-situation") && IsSlug("triage-evidence-board") && IsSlug("corpus-intake")
    ensures IsSlug("triage-capture") && IsSlug("workstreams") && IsSlug("triage-lane-runner")
  {
  }

  lemma HeadingSlugs()
    ensures IsSlug("cross-exam-heading") && IsSlug("candidate-comparison-heading") && IsSlug("discussion")
    ensures IsSlug("decision-heading") && IsSlug("export-heading") && IsSlug("triage-log-workbench")
  {
  }

  lemma ItemKindSlugs()
    ensures IsSlug("evidence") && IsSlug("intake-batch") && IsSlug("snapshot") && IsSlug("imported-run")
    ensures IsSlug("workstream") && IsSlug("triage-run") && IsSlug("comment") && IsSlug("timeline")
    ensures IsSlug("contribution") && IsSlug("log-workbench-view") && IsSlug("log-workbench-bookmark")
    ensures IsSlug("log-line")
  {
  }

  lemma RoutedShape(kind: Kind, id: string)
    ensures var f := Routed(kind, id);
            && (kind.InvestigationStage? || IsStage(f.stage))
            && (kind.InvestigationStage? ==> f.stage == id)
            && (f.section.Some? ==> IsSlug(f.section.value))
            && (f.itemKind.Some? ==> IsSlug(f.itemKind.value))
            && (f.item.Some? ==> f.item.value == id)
            && (f.lane.Some? ==> f.lane.value == id)
            && (f.section.None? ==> f.item.None? && f.itemKind.None? && f.lane.None?)
  {
    SectionSlugs();
    HeadingSlugs();
    ItemKindSlugs();
  }

  // ----- equal pathnames ----------------------------------------------------------------------

  lemma SliceParts(prefix: string, id: string, sep: string, stage: string, query: string)
    requires |prefix| == 16 && |id| == 36 && |sep| == 1
    ensures var path := prefix + id + sep + stage + query;
            |path| >= 53 && path[16..52] == id && path[53..] == stage + query
  {
  }

  lemma PathParts(investigationId: string, f: Focus)
    requires |investigationId| == 36
    ensures var path := PathText(investigationId, f);
            && |path| >= 53
            && path[16..52] == investigationId
            && path[53..] == f.stage + Query(f)
  {
    SliceParts("/investigations/", investigationId, "/", f.stage, Query(f));
  }

  lemma StageLacks(stage: string)
    requires IsStage(stage)
    ensures forall i :: 0 <= i < |stage| ==> IsLower(stage[i])
    ensures Lacks(stage, '?') && Lacks(stage, '.') && Lacks(stage, '/') && stage != ""
  {
  }

  lemma QueryText(f: Focus)
    requires f.section.Some? && f.section.value != ""
    ensures Query(f) == "?" + (Serialize(FocusParams(f)) + "#" + EncodeComponent(f.section.value))
  {
    var q, frag := Serialize(FocusParams(f)), EncodeComponent(f.section.value);
    assert ("?" + q + "#") + frag == "?" + (q + "#" + frag);
  }

  lemma ParamsAscii(f: Focus)
    requires WellFormed(f) && f.section.Some?
    ensures AreAscii(FocusParams(f))
  {
    assert IsAscii("section") && IsAscii("item") && IsAscii("kind") && IsAscii("lane");
    assert IsAscii(f.section.value);
    assert f.item.Some? ==> IsAscii(f.item.value);
    assert f.itemKind.Some? ==> IsAscii(f.itemKind.value);
    assert f.lane.Some? ==> IsAscii(f.lane.value);
  }

  function Lookup(ps: Params, name: string): Option<string> {
    if ps == [] then None
    else if ps[0].0 == name then Some(ps[0].1)
    else Lookup(ps[1..], name)
  }

  lemma {:induction false} LookupConcat(ps: Params, qs: Params, name: string)
    ensures Lookup(ps + qs, name) == if Lookup(ps, name).Some? then Lookup(ps, name) else Lookup(qs, name)
  {
    if ps == [] {
      assert ps + qs == qs;
    } else {
      assert (ps + qs)[1..] == ps[1..] + qs;
      LookupConcat(ps[1..], qs, name);
    }
  }

  lemma LookupOptional(key: string, value: Option<string>, name: string)
    requires value.Some? ==> value.value != ""
    ensures Lookup(Optional(key, value), name) == if key == name then value else None
  {
  }

  /** A parameter named by none of the later groups is found in its own group. */
  lemma LookupFocus(f: Focus, name: string)
    requires WellFormed(f) && f.section.Some?
    ensures Lookup(FocusParams(f), name) ==
      if name == "section" then f.section
      else if name == "item" then f.item
      else if name == "kind" then f.itemKind
      else if name == "lane" then f.lane
      else None
  {
    var a, b, c, d := [("section", f.section.value)], Optional("item", f.item), Optional("kind", f.itemKind), Optional("lane", f.lane);
    LookupConcat(a + b + c, d, name);
    LookupConcat(a + b, c, name);
    LookupConcat(a, b, name);
    assert Lookup(a, name) == if name == "section" then f.section else None;
    LookupOptional("item", f.item, name);
    LookupOptional("kind", f.itemKind, name);
    LookupOptional("lane", f.lane, name);
  }

  lemma QueryInjective(f: Focus, g: Focus)
    requires WellFormed(f) && WellFormed(g) && f.section.Some? && g.section.Some?
    requires Query(f) == Query(g)
    ensures f.(stage := g.stage) == g
  {
    var p, q := Serialize(FocusParams(f)), Serialize(FocusParams(g));
    var x, y := EncodeComponent(f.section.value), EncodeComponent(g.section.value);
    QueryText(f);
    QueryText(g);
    assert Query(f)[1..] == p + "#" + x && Query(g)[1..] == q + "#" + y;
    SerializeLacks(FocusParams(f));
    SerializeLacks(FocusParams(g));
    CutAt(p, x, q, y, '#');
    ParamsAscii(f);
    ParamsAscii(g);
    SerializeInjective(FocusParams(f), FocusParams(g));
    SameParams(f, g);
  }

  lemma SameParams(f: Focus, g: Focus)
    requires WellFormed(f) && WellFormed(g) && f.section.Some? && g.section.Some?
    requires FocusParams(f) == FocusParams(g)
    ensures f.(stage := g.stage) == g
  {
    LookupFocus(f, "section");
    LookupFocus(g, "section");
    LookupFocus(f, "item");
    LookupFocus(g, "item");
    LookupFocus(f, "kind");
    LookupFocus(g, "kind");
    LookupFocus(f, "lane");
    LookupFocus(g, "lane");
  }

  lemma PathInjective(i: string, f: Focus, j: string, g: Focus)
    requires |i| == 36 && |j| == 36 && WellFormed(f) && WellFormed(g)
    requires PathText(i, f) == PathText(j, g)
    ensures i == j && f == g
  {
    PathParts(i, f);
    PathParts(j, g);
    StageLacks(f.stage);
    StageLacks(g.stage);
    QueryHead(f);
    QueryHead(g);
    CutUnique(f.stage, Query(f), g.stage, Query(g), '?');
    if f.section.Some? {
      QueryInjective(f, g);
    }
  }

  lemma QueryHead(f: Focus)
    requires WellFormed(f)
    ensures if f.section.Some? then Query(f) != "" && Query(f)[0] == '?' else Query(f) == ""
  {
    if f.section.Some? {
      QueryText(f);
    }
  }

  /**
   Two valid resources have the same pathname exactly when they belong to the
   same investigation and are routed to the same stage, section, item, kind and lane.
   */
  lemma SamePathname(i: string, kind: Kind, id: string, j: string, kind': Kind, id': string)
    requires ValidResource(i, kind, id) && ValidResource(j, kind', id')
    ensures Derived(i, kind, id) == Derived(j, kind', id') <==> i == j && Routed(kind, id) == Routed(kind', id')
  {
    RoutedWellFormed(kind, id);
    RoutedWellFormed(kind', id');
    if Derived(i, kind, id) == Derived(j, kind', id') {
      PathInjective(i, Routed(kind, id), j, Routed(kind', id'));
    }
  }

  // ----- safe pathnames -------------------------------------------------------------------------

  lemma {:induction false} EncodeNoDots(s: string)
    requires IsTokenText(s) && NoPair(s, '.')
    ensures NoPair(Encode(s), '.')
    ensures s != "" ==> Encode(s) != "" && (Encode(s)[0] == '.' <==> s[0] == '.')
  {
    if s != "" {
      var head, rest := EncodeChar(s[0]), Encode(s[1..]);
      assert forall i :: 0 <= i < |s[1..]| ==> s[1..][i] == s[i + 1];
      EncodeNoDots(s[1..]);
      assert NoPair(head, '.') && (head[|head| - 1] == '.' <==> s[0] == '.');
      NoPairConcat(head, rest, '.');
    }
  }

  lemma PairNoDots(p: (string, string))
    requires IsSlug(p.0) && IsTokenText(p.1) && NoPair(p.1, '.')
    ensures NoPair(Pair(p), '.')
  {
    SlugIsToken(p.0);
    EncodeNoDots(p.0);
    EncodeNoDots(p.1);
    NoPairConcat(Encode(p.0), "=", '.');
    NoPairConcat(Encode(p.0) + "=", Encode(p.1), '.');
  }

  lemma SlugIsToken(s: string)
    requires IsSlug(s)
    ensures IsTokenText(s) && Lacks(s, '.') && Lacks(s, '/') && NoPair(s, '.')
  {
  }

  ghost predicate DotSafe(ps: Params) {
    forall i :: 0 <= i < |ps| ==> NoPair(Pair(ps[i]), '.')
  }

  lemma {:induction false} SerializeNoDots(ps: Params)
    requires DotSafe(ps)
    ensures NoPair(Serialize(ps), '.')
  {
    if |ps| > 1 {
      SerializeNoDots(ps[1..]);
      NoPairConcat(Pair(ps[0]), "&", '.');
      NoPairConcat(Pair(ps[0]) + "&", Serialize(ps[1..]), '.');
    }
  }

  lemma {:induction false} SlugComponent(s: string)
    requires forall i :: 0 <= i < |s| ==> IsLower(s[i]) || s[i] == '-'
    ensures EncodeComponent(s) == s
  {
    if s != "" {
      SlugComponent(s[1..]);
      assert s == [s[0]] + s[1..];
      assert s[0] == '-' ==> s[0] in "-_.!~*'()";
    }
  }

  lemma ParamNameSlugs()
    ensures IsSlug("section") && IsSlug("item") && IsSlug("kind") && IsSlug("lane")
  {
  }

  lemma OptionalDotSafe(name: string, value: Option<string>)
    requires IsSlug(name)
    requires value.Some? ==> IsTokenText(value.value) && NoPair(value.value, '.')
    ensures DotSafe(Optional(name, value))
  {
    if value.Some? { PairNoDots((name, value.value)); }
  }

  lemma DotSafeConcat(ps: Params, qs: Params)
    requires DotSafe(ps) && DotSafe(qs)
    ensures DotSafe(ps + qs)
  {
  }

  lemma FocusDotSafe(f: Focus)
    requires WellFormed(f) && f.section.Some?
    ensures DotSafe(FocusParams(f))
  {
    ParamNameSlugs();
    SlugIsToken(f.section.value);
    if f.itemKind.Some? { SlugIsToken(f.itemKind.value); }
    var a, b, c, d := [("section", f.section.value)], Optional("item", f.item), Optional("kind", f.itemKind), Optional("lane", f.lane);
    PairNoDots(("section", f.section.value));
    OptionalDotSafe("item", f.item);
    OptionalDotSafe("kind", f.itemKind);
    OptionalDotSafe("lane", f.lane);
    DotSafeConcat(a, b);
    DotSafeConcat(a + b, c);
    DotSafeConcat(a + b + c, d);
  }

  lemma HashSafe(q: string, frag: string)
    requires NoPair(q, '.') && Lacks(q, '/') && NoPair(frag, '.') && Lacks(frag, '/')
    ensures NoPair("?" + (q + "#" + frag), '.') && Lacks("?" + (q + "#" + frag), '/')
  {
    NoPairConcat(q, "#", '.');
    NoPairConcat(q + "#", frag, '.');
    NoPairConcat("?", q + "#" + frag, '.');
  }

  lemma QuerySafe(f: Focus)
    requires WellFormed(f)
    ensures NoPair(Query(f), '.') && Lacks(Query(f), '/')
  {
    if f.section.None? {
      QueryHead(f);
    } else {
      SlugComponent(f.section.value);
      SlugIsToken(f.section.value);
      QueryText(f);
      SerializeLacks(FocusParams(f));
      FocusDotSafe(f);
      SerializeNoDots(FocusParams(f));
      HashSafe(Serialize(FocusParams(f)), f.section.value);
    }
  }

  lemma PrefixSafe()
    ensures NoPair("/investigations/", '.') && NoPair("/investigations/", '/') && Lacks("/investigations/", '.')
  {
  }

  lemma BaseSafe(investigationId: string, stage: string)
    requires IsUuid(investigationId) && IsStage(stage)
    ensures NoPair(Base(investigationId, stage), '/') && Lacks(Base(investigationId, stage), '.')
  {
    var prefix := "/investigations/";
    PrefixSafe();
    StageLacks(stage);
    UuidLacks(investigationId);
    NoPairConcat(prefix, investigationId, '/');
    NoPairConcat(prefix + investigationId, "/", '/');
    NoPairConcat(prefix + investigationId + "/", stage, '/');
    LacksParts(prefix, investigationId, "/", stage, '.');
  }

  lemma UuidLacks(id: string)
    requires IsUuid(id)
    ensures Lacks(id, '.') && Lacks(id, '/') && id != ""
  {
  }

  lemma LacksParts(a: string, b: string, x: string, d: string, c: char)
    requires Lacks(a, c) && Lacks(b, c) && Lacks(x, c) && Lacks(d, c)
    ensures Lacks(a + b + x + d, c)
  {
  }

  /** No derived pathname can leave its directory or name another host. */
  lemma PathnameSafe(investigationId: string, kind: Kind, id: string)
    requires ValidResource(investigationId, kind, id)
    ensures !Contains(Derived(investigationId, kind, id), "..")
    ensures !Contains(Derived(investigationId, kind, id), "//")
  {
    var f := Routed(kind, id);
    RoutedWellFormed(kind, id);
    PathTextSafe(investigationId, f);
    ContainsPair(PathText(investigationId, f), '.');
    ContainsPair(PathText(investigationId, f), '/');
    assert ['.', '.'] == ".." && ['/', '/'] == "//";
  }

  lemma PathTextSafe(investigationId: string, f: Focus)
    requires IsUuid(investigationId) && WellFormed(f)
    ensures NoPair(PathText(investigationId, f), '.') && NoPair(PathText(investigationId, f), '/')
  {
    var base := Base(investigationId, f.stage);
    BaseSafe(investigationId, f.stage);
    QuerySafe(f);
    LacksNoPair(base, '.');
    LacksNoPair(Query(f), '/');
    NoPairConcat(base, Query(f), '.');
    NoPairConcat(base, Query(f), '/');
  }

  // ----- reading a pathname back -------------------------------------------------------------------

  /** What precedes the query and the fragment. */
  function ReadBase(path: string): string {
    var i := IndexOf(path, "?");
    if i < 0 then path else path[..i]
  }

  /** The query and fragment text behind the question mark. */
  function ReadTail(path: string): (string, string) {
    var i := IndexOf(path, "?");
    if i < 0 then ("", "")
    else
      var tail := path[i + 1..];
      var j := IndexOf(tail, "#");
      if j < 0 then (tail, "") else (tail[..j], tail[j + 1..])
  }

  function ReadQuery(path: string): Params {
    ParseQuery(ReadTail(path).0)
  }

  function ReadFragment(path: string): string {
    Decode(ReadTail(path).1, false)
  }

  lemma {:induction false} SlugDecodes(s: string)
    requires forall i :: 0 <= i < |s| ==> IsLower(s[i]) || s[i] == '-'
    ensures Decode(s, false) == s
  {
    if s != "" {
      SlugDecodes(s[1..]);
      assert s == [s[0]] + s[1..];
    }
  }

  lemma TailReadsBack(base: string, query: string, frag: string)
    requires Lacks(base, '?') && Lacks(query, '#')
    ensures var path := base + ("?" + (query + "#" + frag));
            ReadBase(path) == base && ReadTail(path) == (query, frag)
  {
    var rest := query + "#" + frag;
    var path := base + ("?" + rest);
    assert path == base + "?" + rest && "?" == ['?'] && "#" == ['#'];
    IndexOfFirst(base, '?', rest);
    assert path[..|base|] == base && path[|base| + 1..] == rest;
    IndexOfFirst(query, '#', frag);
    assert rest[..|query|] == query && rest[|query| + 1..] == frag;
  }

  lemma BaseLacksQuery(investigationId: string, stage: string)
    requires IsUuid(investigationId) && IsStage(stage)
    ensures Lacks(Base(investigationId, stage), '?')
  {
    StageLacks(stage);
    assert Lacks("/investigations/", '?') && Lacks(investigationId, '?') && Lacks("/", '?');
    LacksParts("/investigations/", investigationId, "/", stage, '?');
  }

  lemma FocusReadsBack(investigationId: string, f: Focus)
    requires IsUuid(investigationId) && WellFormed(f)
    ensures ReadBase(PathText(investigationId, f)) == Base(investigationId, f.stage)
    ensures f.section.None? ==> ReadTail(PathText(investigationId, f)) == ("", "")
    ensures f.section.Some? ==> ReadQuery(PathText(investigationId, f)) == FocusParams(f)
    ensures f.section.Some? ==> ReadFragment(PathText(investigationId, f)) == f.section.value
  {
    var base := Base(investigationId, f.stage);
    BaseLacksQuery(investigationId, f.stage);
    if f.section.Some? {
      QueryText(f);
      SerializeLacks(FocusParams(f));
      TailReadsBack(base, Serialize(FocusParams(f)), EncodeComponent(f.section.value));
      ParamsAscii(f);
      ParseUndoesSerialize(FocusParams(f));
      SlugComponent(f.section.value);
      SlugDecodes(f.section.value);
    } else {
      QueryHead(f);
      assert base + "" == base && "?" == ['?'];
      IndexOfNone(base, '?');
    }
  }

  /** What a reader of the pathname finds, under one parameter name. */
  ghost predicate ReadsAs(path: string, investigationId: string, f: Focus, name: string) {
    && ReadBase(path) == "/investigations/" + investigationId + "/" + f.stage
    && Lookup(ReadQuery(path), name)
       == (if name == "section" then f.section else if name == "item" then f.item
           else if name == "kind" then f.itemKind else if name == "lane" then f.lane else None)
    && (f.section.Some? ==> ReadFragment(path) == f.section.value)
  }

  lemma FocusReads(investigationId: string, f: Focus, name: string)
    requires IsUuid(investigationId) && WellFormed(f)
    ensures ReadsAs(PathText(investigationId, f), investigationId, f, name)
  {
    FocusReadsBack(investigationId, f);
    if f.section.Some? {
      LookupFocus(f, name);
    } else {
      EmptyQuery();
    }
  }

  /**
   Reading a derived pathname gives back the investigation, the stage and, under
   their parameter names, exactly the section, item, kind and lane the resource is
   routed to; its fragment is the section.
   */
  lemma PathnameReadsBack(investigationId: string, kind: Kind, id: string, name: string)
    requires ValidResource(investigationId, kind, id)
    ensures ReadsAs(Derived(investigationId, kind, id), investigationId, Routed(kind, id), name)
  {
    RoutedWellFormed(kind, id);
    FocusReads(investigationId, Routed(kind, id), name);
  }

  lemma EmptyQuery()
    ensures ParseQuery("") == []
  {
    ParseUndoesSerialize([]);
  }
}
