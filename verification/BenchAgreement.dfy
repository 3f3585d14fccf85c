/**
 Evidence agreement between the candidates of a bench run.  Every lane cites
 evidence; the agreement sorts the citations into anchors shared by several
 candidates and lists specific to one.
 */
module BenchAgreement {
  import opened Ordering

  /** One candidate's share-safe run; `evidence` is `acceptedEvidenceIds`. */
  datatype Lane = Lane(candidateId: string, evidence: seq<string>)

  datatype Anchor = Anchor(evidenceRef: string, candidateIds: seq<string>)
  datatype Specific = Specific(candidateId: string, evidenceRefs: seq<string>)
  datatype Agreement = Agreement(sharedAnchors: seq<Anchor>, candidateSpecific: seq<Specific>)

  function Ids(lanes: seq<Lane>): (ids: seq<string>)
    ensures |ids| == |lanes| && forall i :: 0 <= i < |ids| ==> ids[i] == lanes[i].candidateId
  {
    seq(|lanes|, i requires 0 <= i < |lanes| => lanes[i].candidateId)
  }

  // ----- the lanes a parsed artifact may have --------------------------------------------------

  datatype LaneCheck = Accepted | NoLane | Duplicate(index: nat)

  ghost predicate RepeatsEarlier(lanes: seq<Lane>, k: nat)
    requires k < |lanes|
  {
    exists i :: 0 <= i < k && lanes[i].candidateId == lanes[k].candidateId
  }

  /** The lane checks of parseBenchRunArtifact: some lane, and no candidate twice. */
  method CheckLanes(lanes: seq<Lane>) returns (r: LaneCheck)
    ensures r.Accepted? <==> lanes != [] && Distinct(Ids(lanes))
    ensures r.NoLane? <==> lanes == []
    ensures r.Duplicate? ==> r.index < |lanes| && RepeatsEarlier(lanes, r.index)
    ensures r.Duplicate? ==> forall k :: 0 <= k < r.index ==> !RepeatsEarlier(lanes, k)
  {
    if lanes == [] { return NoLane; }
    var seen: set<string> := {};
    for k := 0 to |lanes|
      invariant forall id :: id in seen <==> exists i :: 0 <= i < k && lanes[i].candidateId == id
      invariant forall j :: 0 <= j < k ==> !RepeatsEarlier(lanes, j)
    {
      if lanes[k].candidateId in seen {
        var i :| 0 <= i < k && lanes[i].candidateId == lanes[k].candidateId;
        assert Ids(lanes)[i] == Ids(lanes)[k];
        return Duplicate(k);
      }
      seen := seen + {lanes[k].candidateId};
    }
    forall i, j | 0 <= i < j < |lanes| ensures Ids(lanes)[i] != Ids(lanes)[j] {
      assert !RepeatsEarlier(lanes, j);
    }
    return Accepted;
  }

  // ----- who cites what ------------------------------------------------------------------------

  /** The candidates of the lanes citing `ref`, in lane order. */
  function Owners(lanes: seq<Lane>, ref: string): seq<string> {
    if lanes == [] then []
    else
      var n := |lanes| - 1;
      Owners(lanes[..n], ref) + if ref in lanes[n].evidence then [lanes[n].candidateId] else []
  }

  /** The elements of `names` not in `before`, in order. */
  function NotIn(names: seq<string>, before: seq<string>): seq<string> {
    if names == [] then []
    else
      var n := |names| - 1;
      NotIn(names[..n], before) + if names[n] in before then [] else [names[n]]
  }

  /**
   Every cited ref once, where it is first cited; within a lane in ascending
   order, since a trace lists its refs sorted.
   */
  ghost function FirstCited(lanes: seq<Lane>): seq<string> {
    if lanes == [] then []
    else
      var n := |lanes| - 1;
      var before := FirstCited(lanes[..n]);
      before + NotIn(SortedNames(Elements(lanes[n].evidence)), before)
  }

  lemma {:induction false} NotInExact(names: seq<string>, before: seq<string>)
    ensures forall ref :: ref in NotIn(names, before) <==> ref in names && ref !in before
    ensures Distinct(names) ==> Distinct(NotIn(names, before))
  {
    if names != [] {
      var n := |names| - 1;
      NotInExact(names[..n], before);
      assert names == names[..n] + [names[n]];
      if Distinct(names) {
        assert names[n] !in names[..n];
      }
    }
  }

  lemma DistinctJoin(a: seq<string>, b: seq<string>)
    requires Distinct(a) && Distinct(b) && forall x :: x in a ==> x !in b
    ensures Distinct(a + b)
  {
    var s := a + b;
    forall i, j | 0 <= i < j < |s| ensures s[i] != s[j] {
      assert i < |a| <= j ==> s[i] in a && s[j] in b;
    }
  }

  /** A ref is listed, once, exactly when some lane cites it. */
  lemma {:induction false} CitedExact(lanes: seq<Lane>)
    ensures Distinct(FirstCited(lanes))
    ensures forall ref :: ref in FirstCited(lanes) <==> Owners(lanes, ref) != []
    ensures forall i, ref :: 0 <= i < |lanes| && ref in lanes[i].evidence ==> ref in FirstCited(lanes)
  {
    if lanes != [] {
      var n := |lanes| - 1;
      var before, names := FirstCited(lanes[..n]), SortedNames(Elements(lanes[n].evidence));
      CitedExact(lanes[..n]);
      NotInExact(names, before);
      DistinctJoin(before, NotIn(names, before));
      forall i, ref | 0 <= i < |lanes| && ref in lanes[i].evidence ensures ref in FirstCited(lanes) {
        assert i < n ==> lanes[..n][i] == lanes[i];
        assert i == n ==> ref in names;
      }
    }
  }

  // ----- the agreement -------------------------------------------------------------------------

  type OwnerMap = map<string, seq<string>>

  function Get(refs: OwnerMap, ref: string): seq<string> {
    if ref in refs then refs[ref] else []
  }

  function SharedEntries(order: seq<string>, refs: OwnerMap): seq<Anchor> {
    if order == [] then []
    else
      var owners := Get(refs, order[0]);
      (if |owners| > 1 then [Anchor(order[0], Sort(owners, LexLt))] else []) + SharedEntries(order[1..], refs)
  }

  /** The refs whose only owner is `id`, in map order. */
  function SoleEntries(order: seq<string>, refs: OwnerMap, id: string): seq<string> {
    if order == [] then []
    else (if Get(refs, order[0]) == [id] then [order[0]] else []) + SoleEntries(order[1..], refs, id)
  }

  function SpecificEntries(ids: seq<string>, order: seq<string>, refs: OwnerMap): seq<Specific> {
    if ids == [] then []
    else [Specific(ids[0], Sort(SoleEntries(order, refs, ids[0]), LexLt))] + SpecificEntries(ids[1..], order, refs)
  }

  ghost function OwnersMap(lanes: seq<Lane>): (m: OwnerMap)
    ensures forall ref :: ref in m <==> ref in FirstCited(lanes)
  {
    map ref | ref in FirstCited(lanes) :: Owners(lanes, ref)
  }

  ghost function AgreementOf(lanes: seq<Lane>): Agreement {
    var order, refs := FirstCited(lanes), OwnersMap(lanes);
    Agreement(SharedEntries(order, refs), SpecificEntries(Ids(lanes), order, refs))
  }

  /** The owner map while lane `id` is being read: `done` of its refs are in. */
  ghost predicate Filled(refs: OwnerMap, lanes: seq<Lane>, id: string, done: seq<string>) {
    && (forall ref :: ref in refs <==> ref in FirstCited(lanes) || ref in done)
    && (forall ref :: ref in refs ==> refs[ref] == Owners(lanes, ref) + if ref in done then [id] else [])
  }

  lemma FilledStart(lanes: seq<Lane>, id: string)
    ensures Filled(OwnersMap(lanes), lanes, id, [])
  {
  }

  lemma FilledStep(refs: OwnerMap, lanes: seq<Lane>, id: string, done: seq<string>, ref: string)
    requires ref !in done && Filled(refs, lanes, id, done)
    ensures Filled(refs[ref := Get(refs, ref) + [id]], lanes, id, done + [ref])
  {
    var next := refs[ref := Get(refs, ref) + [id]];
    assert Get(refs, ref) == Owners(lanes, ref) by { CitedExact(lanes); }
    forall x ensures x in next <==> x in FirstCited(lanes) || x in done + [ref] {
    }
    forall x | x in next ensures next[x] == Owners(lanes, x) + if x in done + [ref] then [id] else [] {
      assert x == ref ==> x in done + [ref];
      assert x != ref ==> (x in done + [ref] <==> x in done);
    }
  }

  /** The owner map after `id` is added for each of `names`. */
  function WithOwner(refs: OwnerMap, id: string, names: seq<string>): OwnerMap {
    if names == [] then refs
    else
      var n := |names| - 1;
      var r := WithOwner(refs, id, names[..n]);
      r[names[n] := Get(r, names[n]) + [id]]
  }

  lemma {:induction false} WithOwnerFilled(lanes: seq<Lane>, id: string, names: seq<string>)
    requires Distinct(names)
    ensures Filled(WithOwner(OwnersMap(lanes), id, names), lanes, id, names)
  {
    if names == [] {
      FilledStart(lanes, id);
    } else {
      var n := |names| - 1;
      WithOwnerFilled(lanes, id, names[..n]);
      FilledStep(WithOwner(OwnersMap(lanes), id, names[..n]), lanes, id, names[..n], names[n]);
      assert names == names[..n] + [names[n]];
    }
  }

  lemma {:induction false} WithOwnerKeys(refs: OwnerMap, id: string, names: seq<string>)
    ensures forall ref :: ref in WithOwner(refs, id, names) <==> ref in refs || ref in names
  {
    if names != [] {
      WithOwnerKeys(refs, id, names[..|names| - 1]);
      assert names == names[..|names| - 1] + [names[|names| - 1]];
    }
  }

  lemma NextLane(lanes: seq<Lane>, lane: Lane, ref: string)
    ensures Owners(lanes + [lane], ref)
         == Owners(lanes, ref) + if ref in lane.evidence then [lane.candidateId] else []
    ensures FirstCited(lanes + [lane])
         == FirstCited(lanes) + NotIn(SortedNames(Elements(lane.evidence)), FirstCited(lanes))
  {
    assert (lanes + [lane])[..|lanes|] == lanes;
  }

  /** What the finished lane means for one ref. */
  lemma RefFilled(refs: OwnerMap, lanes: seq<Lane>, lane: Lane, ref: string)
    requires Filled(refs, lanes, lane.candidateId, SortedNames(Elements(lane.evidence)))
    ensures ref in refs <==> ref in FirstCited(lanes + [lane])
    ensures ref in refs ==> refs[ref] == Owners(lanes + [lane], ref)
  {
    var names := SortedNames(Elements(lane.evidence));
    NotInExact(names, FirstCited(lanes));
    NextLane(lanes, lane, ref);
    assert ref in names <==> ref in lane.evidence;
  }

  lemma LaneFilled(refs: OwnerMap, lanes: seq<Lane>, lane: Lane)
    requires Filled(refs, lanes, lane.candidateId, SortedNames(Elements(lane.evidence)))
    ensures refs == OwnersMap(lanes + [lane])
  {
    var m := OwnersMap(lanes + [lane]);
    forall ref ensures ref in refs <==> ref in m {
      RefFilled(refs, lanes, lane, ref);
    }
    forall ref | ref in refs ensures refs[ref] == m[ref] {
      RefFilled(refs, lanes, lane, ref);
    }
  }

  lemma LaneDone(lanes: seq<Lane>, lane: Lane)
    ensures var names, before := SortedNames(Elements(lane.evidence)), FirstCited(lanes);
            && FirstCited(lanes + [lane]) == before + NotIn(names, before)
            && OwnersMap(lanes + [lane]) == WithOwner(OwnersMap(lanes), lane.candidateId, names)
  {
    var names := SortedNames(Elements(lane.evidence));
    NextLane(lanes, lane, "");
    WithOwnerFilled(lanes, lane.candidateId, names);
    LaneFilled(WithOwner(OwnersMap(lanes), lane.candidateId, names), lanes, lane);
  }

  /** The evidence refs of a lane's trace: each once, sorted. */
  method TraceRefs(lane: Lane) returns (names: seq<string>)
    ensures names == SortedNames(Elements(lane.evidence))
  {
    assert Elements(lane.evidence) == set ref | ref in lane.evidence;
    names := SortNames(set ref | ref in lane.evidence);
  }

  /** The inner loop: candidate `id` becomes an owner of each of its refs. */
  method AddOwner(id: string, names: seq<string>, order0: seq<string>, refs0: OwnerMap)
    returns (order: seq<string>, refs: OwnerMap)
    requires Distinct(names) && forall ref :: ref in refs0 <==> ref in order0
    ensures order == order0 + NotIn(names, order0)
    ensures refs == WithOwner(refs0, id, names)
  {
    order, refs := order0, refs0;
    for j := 0 to |names|
      invariant order == order0 + NotIn(names[..j], order0)
      invariant refs == WithOwner(refs0, id, names[..j])
    {
      assert names[..j + 1][..j] == names[..j];
      WithOwnerKeys(refs0, id, names[..j]);
      if names[j] !in refs { order := order + [names[j]]; }
      refs := refs[names[j] := Get(refs, names[j]) + [id]];
    }
    assert names[..|names|] == names;
  }

  /** The nested loops of agreementFromLanes; `order` is the insertion order of the Map. */
  method CollectOwners(lanes: seq<Lane>) returns (order: seq<string>, refs: OwnerMap)
    ensures order == FirstCited(lanes) && refs == OwnersMap(lanes)
  {
    order, refs := [], map[];
    for i := 0 to |lanes|
      invariant order == FirstCited(lanes[..i]) && refs == OwnersMap(lanes[..i])
    {
      var names := TraceRefs(lanes[i]);
      order, refs := AddOwner(lanes[i].candidateId, names, order, refs);
      LaneDone(lanes[..i], lanes[i]);
      assert lanes[..i + 1] == lanes[..i] + [lanes[i]];
    }
    assert lanes[..|lanes|] == lanes;
  }

  method AgreementFromLanes(lanes: seq<Lane>) returns (r: Agreement)
    ensures r == AgreementOf(lanes)
  {
    var order, refs := CollectOwners(lanes);
    r := Agreement(SharedEntries(order, refs), SpecificEntries(Ids(lanes), order, refs));
  }

  // ----- what the agreement says ---------------------------------------------------------------

  ghost predicate Cites(lanes: seq<Lane>, id: string, ref: string) {
    exists i :: 0 <= i < |lanes| && lanes[i].candidateId == id && ref in lanes[i].evidence
  }

  ghost predicate IsShared(a: Agreement, ref: string) {
    exists i :: 0 <= i < |a.sharedAnchors| && a.sharedAnchors[i].evidenceRef == ref
  }

  ghost predicate IsSpecific(a: Agreement, id: string, ref: string) {
    exists i :: 0 <= i < |a.candidateSpecific|
             && a.candidateSpecific[i].candidateId == id && ref in a.candidateSpecific[i].evidenceRefs
  }

  lemma {:induction false} OwnersExact(lanes: seq<Lane>, ref: string)
    ensures forall id :: id in Owners(lanes, ref) <==> Cites(lanes, id, ref)
    ensures Distinct(Ids(lanes)) ==> Distinct(Owners(lanes, ref))
  {
    if lanes != [] {
      var n := |lanes| - 1;
      var last := lanes[n];
      OwnersExact(lanes[..n], ref);
      forall id ensures id in Owners(lanes, ref) <==> Cites(lanes, id, ref) {
        CitesSplit(lanes, id, ref);
      }
      if Distinct(Ids(lanes)) {
        forall i, j | 0 <= i < j < n ensures Ids(lanes[..n])[i] != Ids(lanes[..n])[j] {
          assert Ids(lanes)[i] != Ids(lanes)[j];
        }
        forall i | 0 <= i < n ensures lanes[..n][i].candidateId != last.candidateId {
          assert Ids(lanes)[i] != Ids(lanes)[n];
        }
        assert last.candidateId !in Owners(lanes[..n], ref);
        DistinctJoin(Owners(lanes[..n], ref), if ref in last.evidence then [last.candidateId] else []);
      }
    }
  }

  lemma CitesSplit(lanes: seq<Lane>, id: string, ref: string)
    requires lanes != []
    ensures var n := |lanes| - 1;
            Cites(lanes, id, ref)
            <==> Cites(lanes[..n], id, ref) || (lanes[n].candidateId == id && ref in lanes[n].evidence)
  {
    var n := |lanes| - 1;
    if Cites(lanes[..n], id, ref) {
      var i :| 0 <= i < n && lanes[..n][i].candidateId == id && ref in lanes[..n][i].evidence;
      assert lanes[i].candidateId == id && ref in lanes[i].evidence;
    }
    if Cites(lanes, id, ref) && !(lanes[n].candidateId == id && ref in lanes[n].evidence) {
      var i :| 0 <= i < |lanes| && lanes[i].candidateId == id && ref in lanes[i].evidence;
      assert lanes[..n][i].candidateId == id && ref in lanes[..n][i].evidence;
    }
  }

  lemma {:induction false} SharedExact(order: seq<string>, refs: OwnerMap)
    ensures forall ref :: (exists a :: a in SharedEntries(order, refs) && a.evidenceRef == ref)
                     <==> ref in order && |Get(refs, ref)| > 1
    ensures forall a :: a in SharedEntries(order, refs) ==> a.candidateIds == Sort(Get(refs, a.evidenceRef), LexLt)
  {
    if order != [] {
      assert order == [order[0]] + order[1..];
      SharedExact(order[1..], refs);
      var s, rest := SharedEntries(order, refs), SharedEntries(order[1..], refs);
      forall ref ensures (exists a :: a in s && a.evidenceRef == ref) <==> ref in order && |Get(refs, ref)| > 1 {
        if ref in order[1..] && |Get(refs, ref)| > 1 {
          var a :| a in rest && a.evidenceRef == ref;
          assert a in s;
        }
        if ref == order[0] && |Get(refs, ref)| > 1 {
          assert s[0].evidenceRef == ref && s[0] in s;
        }
      }
    }
  }

  lemma {:induction false} SoleExact(order: seq<string>, refs: OwnerMap, id: string)
    ensures forall ref :: ref in SoleEntries(order, refs, id) <==> ref in order && Get(refs, ref) == [id]
    ensures Distinct(order) ==> Distinct(SoleEntries(order, refs, id))
  {
    if order != [] {
      assert order == [order[0]] + order[1..];
      SoleExact(order[1..], refs, id);
      if Distinct(order) {
        assert forall i :: 0 <= i < |order[1..]| ==> order[1..][i] == order[i + 1];
        assert order[0] !in order[1..];
        if Get(refs, order[0]) == [id] {
          DistinctJoin([order[0]], SoleEntries(order[1..], refs, id));
        }
      }
    }
  }

  lemma {:induction false} SpecificAt(ids: seq<string>, order: seq<string>, refs: OwnerMap)
    ensures var s := SpecificEntries(ids, order, refs);
            && |s| == |ids|
            && forall i :: 0 <= i < |ids| ==>
                 s[i] == Specific(ids[i], Sort(SoleEntries(order, refs, ids[i]), LexLt))
  {
    if ids != [] {
      SpecificAt(ids[1..], order, refs);
    }
  }

  /** The candidates citing a ref. */
  ghost function Citers(lanes: seq<Lane>, ref: string): (s: set<string>)
    ensures forall id :: id in s <==> Cites(lanes, id, ref)
  {
    OwnersExact(lanes, ref);
    Elements(Owners(lanes, ref))
  }

  lemma SoleElement(s: seq<string>)
    requires |Elements(s)| == |s|
    ensures forall x :: s == [x] <==> Elements(s) == {x}
  {
    forall x | Elements(s) == {x} ensures s == [x] {
      assert |s| == 1 && s[0] in Elements(s);
    }
  }

  /** For distinct candidates the owner list is as long as the set of citing candidates. */
  lemma OwnersCount(lanes: seq<Lane>, ref: string)
    requires Distinct(Ids(lanes))
    ensures |Owners(lanes, ref)| == |Citers(lanes, ref)|
    ensures forall id :: Owners(lanes, ref) == [id] <==> Citers(lanes, ref) == {id}
    ensures Get(OwnersMap(lanes), ref) == Owners(lanes, ref)
    ensures ref in FirstCited(lanes) <==> Citers(lanes, ref) != {}
  {
    var owners, citers := Owners(lanes, ref), Citers(lanes, ref);
    OwnersExact(lanes, ref);
    CitedExact(lanes);
    DistinctSize(owners);
    SoleElement(owners);
    assert owners != [] ==> owners[0] in citers;
  }

  /** A ref is a shared anchor exactly when two or more candidates cite it. */
  lemma SharedByTwo(lanes: seq<Lane>, ref: string)
    requires Distinct(Ids(lanes))
    ensures IsShared(AgreementOf(lanes), ref) <==> |Citers(lanes, ref)| >= 2
  {
    var order, refs, a := FirstCited(lanes), OwnersMap(lanes), AgreementOf(lanes);
    SharedExact(order, refs);
    OwnersCount(lanes, ref);
    if IsShared(a, ref) {
      var i :| 0 <= i < |a.sharedAnchors| && a.sharedAnchors[i].evidenceRef == ref;
      assert a.sharedAnchors[i] in SharedEntries(order, refs);
    }
    if |Citers(lanes, ref)| >= 2 {
      var x :| x in SharedEntries(order, refs) && x.evidenceRef == ref;
      var i :| 0 <= i < |a.sharedAnchors| && a.sharedAnchors[i] == x;
    }
  }

  /** A shared anchor names exactly the candidates citing its ref, ascending. */
  lemma AnchorNamesCiters(lanes: seq<Lane>, i: nat)
    requires Distinct(Ids(lanes)) && i < |AgreementOf(lanes).sharedAnchors|
    ensures var x := AgreementOf(lanes).sharedAnchors[i];
            Elements(x.candidateIds) == Citers(lanes, x.evidenceRef) && Ascending(x.candidateIds, LexLt)
  {
    var x := AgreementOf(lanes).sharedAnchors[i];
    assert x in SharedEntries(FirstCited(lanes), OwnersMap(lanes));
    SharedExact(FirstCited(lanes), OwnersMap(lanes));
    OwnersCount(lanes, x.evidenceRef);
    OwnersExact(lanes, x.evidenceRef);
    LexStrictTotal();
    SortElements(Owners(lanes, x.evidenceRef), LexLt);
    SortAscending(Owners(lanes, x.evidenceRef), LexLt);
    assert Elements(x.candidateIds) == Citers(lanes, x.evidenceRef);
  }

  /** A ref is specific to a candidate exactly when that candidate alone cites it. */
  lemma SpecificToOne(lanes: seq<Lane>, id: string, ref: string)
    requires Distinct(Ids(lanes))
    ensures IsSpecific(AgreementOf(lanes), id, ref) <==> Citers(lanes, ref) == {id}
  {
    var order, refs, ids := FirstCited(lanes), OwnersMap(lanes), Ids(lanes);
    var s := AgreementOf(lanes).candidateSpecific;
    SpecificAt(ids, order, refs);
    SoleExact(order, refs, id);
    SortElements(SoleEntries(order, refs, id), LexLt);
    OwnersCount(lanes, ref);
    if Citers(lanes, ref) == {id} {
      assert Cites(lanes, id, ref);
      var i :| 0 <= i < |lanes| && lanes[i].candidateId == id && ref in lanes[i].evidence;
      assert s[i].candidateId == id && ref in s[i].evidenceRefs;
    }
  }

  /** Every list of candidate-specific refs is strictly ascending. */
  lemma SpecificAscending(lanes: seq<Lane>, i: nat)
    requires i < |lanes|
    ensures |AgreementOf(lanes).candidateSpecific| == |lanes|
    ensures AgreementOf(lanes).candidateSpecific[i].candidateId == lanes[i].candidateId
    ensures Ascending(AgreementOf(lanes).candidateSpecific[i].evidenceRefs, LexLt)
  {
    SpecificAt(Ids(lanes), FirstCited(lanes), OwnersMap(lanes));
    CitedExact(lanes);
    SoleExact(FirstCited(lanes), OwnersMap(lanes), lanes[i].candidateId);
    LexStrictTotal();
    SortAscending(SoleEntries(FirstCited(lanes), OwnersMap(lanes), lanes[i].candidateId), LexLt);
  }

  /** Every cited ref is in exactly one of the two groups, and nothing else is. */
  lemma Partition(lanes: seq<Lane>, ref: string)
    requires Distinct(Ids(lanes))
    ensures (exists id :: Cites(lanes, id, ref))
       <==> IsShared(AgreementOf(lanes), ref) || exists id :: IsSpecific(AgreementOf(lanes), id, ref)
    ensures forall id :: !(IsShared(AgreementOf(lanes), ref) && IsSpecific(AgreementOf(lanes), id, ref))
    ensures forall id, other :: IsSpecific(AgreementOf(lanes), id, ref) && IsSpecific(AgreementOf(lanes), other, ref)
                            ==> id == other
  {
    var citers := Citers(lanes, ref);
    SharedByTwo(lanes, ref);
    forall id ensures IsSpecific(AgreementOf(lanes), id, ref) <==> citers == {id} {
      SpecificToOne(lanes, id, ref);
    }
    if (exists id :: Cites(lanes, id, ref)) && |citers| < 2 {
      var id :| Cites(lanes, id, ref);
      SoleMember(citers, id);
      assert IsSpecific(AgreementOf(lanes), id, ref);
    }
    if |citers| >= 2 {
      var id :| id in citers;
      assert Cites(lanes, id, ref);
    }
    forall id | citers == {id} ensures Cites(lanes, id, ref) && |citers| == 1 {
    }
    assert forall id, other :: citers == {id} && citers == {other} ==> id in {other};
  }

  lemma SoleMember(s: set<string>, x: string)
    requires x in s && |s| < 2
    ensures s == {x}
  {
    assert s == {x} + (s - {x});
    assert |s - {x}| == 0;
  }

  // ----- conservation --------------------------------------------------------------------------

  /** The number of (lane, ref) citations. */
  ghost function Citations(lanes: seq<Lane>): nat {
    if lanes == [] then 0
    else var n := |lanes| - 1; Citations(lanes[..n]) + |Elements(lanes[n].evidence)|
  }

  function AnchorTotal(anchors: seq<Anchor>): nat {
    if anchors == [] then 0 else |anchors[0].candidateIds| + AnchorTotal(anchors[1..])
  }

  function SpecificTotal(rows: seq<Specific>): nat {
    if rows == [] then 0 else |rows[0].evidenceRefs| + SpecificTotal(rows[1..])
  }

  function OwnersTotal(order: seq<string>, lanes: seq<Lane>): nat {
    if order == [] then 0 else |Owners(lanes, order[0])| + OwnersTotal(order[1..], lanes)
  }

  /** The refs of `order` that the lane cites. */
  function CitedBy(order: seq<string>, lane: Lane): seq<string> {
    if order == [] then []
    else (if order[0] in lane.evidence then [order[0]] else []) + CitedBy(order[1..], lane)
  }

  lemma {:induction false} CitedByExact(order: seq<string>, lane: Lane)
    requires Distinct(order)
    ensures Distinct(CitedBy(order, lane))
    ensures forall ref :: ref in CitedBy(order, lane) <==> ref in order && ref in lane.evidence
  {
    if order != [] {
      assert order == [order[0]] + order[1..];
      assert forall i :: 0 <= i < |order[1..]| ==> order[1..][i] == order[i + 1];
      CitedByExact(order[1..], lane);
      assert order[0] !in order[1..];
      if order[0] in lane.evidence {
        DistinctJoin([order[0]], CitedBy(order[1..], lane));
      }
    }
  }

  lemma {:induction false} OwnersTotalStep(order: seq<string>, lanes: seq<Lane>)
    requires lanes != []
    ensures OwnersTotal(order, lanes)
         == OwnersTotal(order, lanes[..|lanes| - 1]) + |CitedBy(order, lanes[|lanes| - 1])|
  {
    if order != [] { OwnersTotalStep(order[1..], lanes); }
  }

  lemma {:induction false} OwnersTotalEmpty(order: seq<string>)
    ensures OwnersTotal(order, []) == 0
  {
    if order != [] { OwnersTotalEmpty(order[1..]); }
  }

  /** Counting citations by ref or by lane gives the same number. */
  lemma {:induction false} DoubleCount(order: seq<string>, lanes: seq<Lane>)
    requires Distinct(order)
    requires forall i, ref :: 0 <= i < |lanes| && ref in lanes[i].evidence ==> ref in order
    ensures OwnersTotal(order, lanes) == Citations(lanes)
  {
    if lanes == [] {
      OwnersTotalEmpty(order);
    } else {
      var n := |lanes| - 1;
      assert forall i :: 0 <= i < n ==> lanes[..n][i] == lanes[i];
      DoubleCount(order, lanes[..n]);
      OwnersTotalStep(order, lanes);
      CitedByExact(order, lanes[n]);
      DistinctSize(CitedBy(order, lanes[n]));
      assert Elements(CitedBy(order, lanes[n])) == Elements(lanes[n].evidence);
    }
  }

  /** How often the owner list is the single candidate of a row. */
  function Matches(ids: seq<string>, owners: seq<string>): nat {
    if ids == [] then 0 else (if owners == [ids[0]] then 1 else 0) + Matches(ids[1..], owners)
  }

  lemma {:induction false} MatchesExact(ids: seq<string>, owners: seq<string>)
    ensures Matches(ids, owners) > 0 <==> |owners| == 1 && owners[0] in ids
    ensures Distinct(ids) ==> Matches(ids, owners) <= 1
  {
    if ids != [] {
      assert ids == [ids[0]] + ids[1..];
      assert forall i :: 0 <= i < |ids[1..]| ==> ids[1..][i] == ids[i + 1];
      MatchesExact(ids[1..], owners);
      if Distinct(ids) {
        assert ids[0] !in ids[1..];
      }
    }
  }

  lemma {:induction false} SpecificStep(ids: seq<string>, order: seq<string>, refs: OwnerMap)
    requires order != []
    ensures SpecificTotal(SpecificEntries(ids, order, refs))
         == Matches(ids, Get(refs, order[0])) + SpecificTotal(SpecificEntries(ids, order[1..], refs))
  {
    if ids != [] { SpecificStep(ids[1..], order, refs); }
  }

  lemma {:induction false} SpecificEmpty(ids: seq<string>, refs: OwnerMap)
    ensures SpecificTotal(SpecificEntries(ids, [], refs)) == 0
  {
    if ids != [] { SpecificEmpty(ids[1..], refs); }
  }

  /** The number of entries in the whole agreement. */
  function Listed(a: Agreement): nat {
    AnchorTotal(a.sharedAnchors) + SpecificTotal(a.candidateSpecific)
  }

  /** A ref with one owner stands in one row. */
  predicate ListedOnce(ids: seq<string>, owners: seq<string>) {
    |owners| == 1 ==> Matches(ids, owners) == 1
  }

  ghost function ListedFor(order: seq<string>, refs: OwnerMap, ids: seq<string>): nat {
    AnchorTotal(SharedEntries(order, refs)) + SpecificTotal(SpecificEntries(ids, order, refs))
  }

  lemma ListedStep(order: seq<string>, refs: OwnerMap, ids: seq<string>)
    requires order != []
    ensures var owners := Get(refs, order[0]);
            ListedFor(order, refs, ids)
            == (if |owners| > 1 then |owners| else 0) + Matches(ids, owners) + ListedFor(order[1..], refs, ids)
  {
    SpecificStep(ids, order, refs);
    var shared, rest := SharedEntries(order, refs), SharedEntries(order[1..], refs);
    if |Get(refs, order[0])| > 1 {
      assert shared[1..] == rest;
    } else {
      assert shared == rest;
    }
  }

  /** Each ref is owned, as recorded, by candidates that have a row. */
  ghost predicate Recorded(order: seq<string>, lanes: seq<Lane>, refs: OwnerMap, ids: seq<string>) {
    forall ref :: ref in order ==>
      Get(refs, ref) == Owners(lanes, ref) && Owners(lanes, ref) != [] && Owners(lanes, ref)[0] in ids
  }

  ghost predicate AllListedOnce(order: seq<string>, lanes: seq<Lane>, ids: seq<string>) {
    forall ref :: ref in order ==> ListedOnce(ids, Owners(lanes, ref))
  }

  lemma AllSplit(order: seq<string>, lanes: seq<Lane>, refs: OwnerMap, ids: seq<string>)
    requires order != [] && Recorded(order, lanes, refs, ids)
    ensures Recorded(order[1..], lanes, refs, ids)
    ensures Get(refs, order[0]) == Owners(lanes, order[0]) != [] && Owners(lanes, order[0])[0] in ids
    ensures AllListedOnce(order, lanes, ids)
       <==> ListedOnce(ids, Owners(lanes, order[0])) && AllListedOnce(order[1..], lanes, ids)
  {
    assert order == [order[0]] + order[1..];
    assert order[0] in order;
  }

  lemma {:induction false} ListedAgainstOwners(order: seq<string>, lanes: seq<Lane>, refs: OwnerMap, ids: seq<string>)
    requires Recorded(order, lanes, refs, ids)
    ensures ListedFor(order, refs, ids) >= OwnersTotal(order, lanes)
    ensures ListedFor(order, refs, ids) == OwnersTotal(order, lanes) <==> AllListedOnce(order, lanes, ids)
  {
    if order == [] {
      SpecificEmpty(ids, refs);
    } else {
      AllSplit(order, lanes, refs, ids);
      ListedAgainstOwners(order[1..], lanes, refs, ids);
      ListedStep(order, refs, ids);
      MatchesExact(ids, Owners(lanes, order[0]));
    }
  }

  /**
   The agreement lists every citation, and lists each exactly once if and only if
   every ref with one owner belongs to a candidate that has one row.
   */
  lemma ConservedExactly(lanes: seq<Lane>)
    ensures Listed(AgreementOf(lanes)) >= Citations(lanes)
    ensures Listed(AgreementOf(lanes)) == Citations(lanes)
       <==> AllListedOnce(FirstCited(lanes), lanes, Ids(lanes))
  {
    var order, refs, ids := FirstCited(lanes), OwnersMap(lanes), Ids(lanes);
    CitedExact(lanes);
    DoubleCount(order, lanes);
    forall ref | ref in order ensures Owners(lanes, ref)[0] in ids {
      OwnersExact(lanes, ref);
      var id := Owners(lanes, ref)[0];
      assert id in Owners(lanes, ref);
      var i :| 0 <= i < |lanes| && lanes[i].candidateId == id && ref in lanes[i].evidence;
      assert ids[i] == id;
    }
    ListedAgainstOwners(order, lanes, refs, ids);
  }

  /** For every parsed artifact the citations are conserved. */
  lemma Conserved(lanes: seq<Lane>)
    requires Distinct(Ids(lanes))
    ensures Listed(AgreementOf(lanes)) == Citations(lanes)
  {
    var ids := Ids(lanes);
    ConservedExactly(lanes);
    forall ref | ref in FirstCited(lanes) ensures ListedOnce(ids, Owners(lanes, ref)) {
      MatchesExact(ids, Owners(lanes, ref));
      OwnersExact(lanes, ref);
      if |Owners(lanes, ref)| == 1 {
        var id := Owners(lanes, ref)[0];
        assert id in Owners(lanes, ref);
        var i :| 0 <= i < |lanes| && lanes[i].candidateId == id && ref in lanes[i].evidence;
        assert ids[i] == id;
      }
    }
  }

  /** The duplicate check is needed: a repeated candidate has its own refs listed twice. */
  lemma RepeatedCandidateDoubles()
    ensures var lanes := [Lane("a", ["x"]), Lane("a", [])];
            Listed(AgreementOf(lanes)) > Citations(lanes)
  {
    var lanes := [Lane("a", ["x"]), Lane("a", [])];
    TwinOwners();
    TwoRows("a");
    CitedExact(lanes);
    assert !AllListedOnce(FirstCited(lanes), lanes, Ids(lanes)) by {
      assert "x" in FirstCited(lanes) && !ListedOnce(Ids(lanes), Owners(lanes, "x"));
    }
    ConservedExactly(lanes);
  }

  lemma TwinOwners()
    ensures Owners([Lane("a", ["x"]), Lane("a", [])], "x") == ["a"]
    ensures Ids([Lane("a", ["x"]), Lane("a", [])]) == ["a", "a"]
  {
    NextLane([], Lane("a", ["x"]), "x");
    NextLane([Lane("a", ["x"])], Lane("a", []), "x");
    assert [Lane("a", ["x"])] + [Lane("a", [])] == [Lane("a", ["x"]), Lane("a", [])];
  }

  lemma TwoRows(id: string)
    ensures !ListedOnce([id, id], [id])
  {
    assert [id, id][1..] == [id] && [id][1..] == [];
    assert Matches([id], [id]) == 1;
  }
}
