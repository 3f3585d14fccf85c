/**
 The draft-to-published store of releases: create_draft, attach and the
 promotion gate, over every interleaving of calls.
 */
module ReleaseStore {
  import opened Wrappers

  datatype StoredAsset = StoredAsset(sha256: string, size: nat)

  datatype Release = Release(
    name: string, body: string, draft: bool, prerelease: bool, gitSha: string, assets: map<string, StoredAsset>)

  /** The locked release object an identity prescribes. */
  datatype Desired = Desired(tag: string, name: string, body: string, prerelease: bool, gitSha: string)

  type Releases = map<string, Release>

  datatype PromoteResult = PromoteResult(published: bool, draftUnchanged: bool)

  predicate SameMetadata(rel: Release, want: Desired) {
    rel.name == want.name && rel.body == want.body && rel.prerelease == want.prerelease
  }

  predicate Matches(rel: Release, want: Desired) {
    SameMetadata(rel, want) && rel.gitSha == want.gitSha
  }

  /** An asset name takes its first digest and no other. */
  predicate Accepts(rel: Release, asset: string, sha256: string) {
    asset in rel.assets ==> rel.assets[asset].sha256 == sha256
  }

  datatype Op =
    | CreateDraft(want: Desired)
    | Attach(tag: string, asset: string, sha256: string, size: nat)
    | Promote(want: Desired, confirm: string, errors: seq<string>)

  /** The gate's whole condition for publishing a draft. */
  predicate MayPublish(s: Releases, want: Desired, confirm: string, errors: seq<string>) {
    && want.tag in s && s[want.tag].draft
    && confirm == "publish"
    && errors == []
    && Matches(s[want.tag], want)
  }

  function Step(s: Releases, op: Op): Releases {
    match op
    case CreateDraft(want) =>
      if want.tag in s then s
      else s[want.tag := Release(want.name, want.body, true, want.prerelease, want.gitSha, map[])]
    case Attach(tag, asset, sha256, size) =>
      if tag !in s || asset in s[tag].assets then s
      else s[tag := s[tag].(assets := s[tag].assets[asset := StoredAsset(sha256, size)])]
    case Promote(want, confirm, errors) =>
      if MayPublish(s, want, confirm, errors) then s[want.tag := s[want.tag].(draft := false)] else s
  }

  class MemoryReleaseStore {
    var releases: Releases

    constructor ()
      ensures releases == map[]
    {
      releases := map[];
    }

    method Get(tag: string) returns (r: Option<Release>)
      ensures r == if tag in releases then Some(releases[tag]) else None
    {
      if tag in releases { return Some(releases[tag]); } else { return None; }
    }

    /** Creates a draft once; afterwards only the identical request is answered. */
    method CreateDraft(want: Desired) returns (r: Result<Release>)
      modifies this
      ensures releases == Step(old(releases), Op.CreateDraft(want))
      ensures r.Ok? <==> (want.tag in old(releases) ==> Matches(old(releases)[want.tag], want))
      ensures r.Ok? ==> want.tag in releases && r.value == releases[want.tag]
    {
      if want.tag !in releases {
        var stored := Release(want.name, want.body, true, want.prerelease, want.gitSha, map[]);
        releases := releases[want.tag := stored];
        return Ok(stored);
      }
      var existing := releases[want.tag];
      if existing.name != want.name || existing.body != want.body || existing.prerelease != want.prerelease {
        return Err("refusing to clobber existing release");
      }
      if existing.gitSha != want.gitSha { return Err("existing draft git_sha"); }
      return Ok(existing);
    }

    method Attach(tag: string, asset: string, sha256: string, size: nat) returns (r: Result<()>)
      modifies this
      ensures releases == Step(old(releases), Op.Attach(tag, asset, sha256, size))
      ensures r.Ok? <==> tag in old(releases) && Accepts(old(releases)[tag], asset, sha256)
    {
      if tag !in releases { return Err("no release"); }
      var rel := releases[tag];
      if asset in rel.assets {
        if rel.assets[asset].sha256 != sha256 { return Err("refusing to clobber asset"); }
        return Ok(());
      }
      releases := releases[tag := rel.(assets := rel.assets[asset := StoredAsset(sha256, size)])];
      return Ok(());
    }

    method PromoteTag(tag: string) returns (r: Result<Release>)
      modifies this
      ensures r.Ok? <==> tag in old(releases)
      ensures releases == if tag in old(releases) then old(releases)[tag := old(releases)[tag].(draft := false)]
                          else old(releases)
      ensures r.Ok? ==> r.value == releases[tag]
    {
      if tag !in releases { return Err("no release"); }
      releases := releases[tag := releases[tag].(draft := false)];
      return Ok(releases[tag]);
    }
  }

  /** `errors` is what payload validation reported for the bundle directory. */
  method PromoteGate(store: MemoryReleaseStore, want: Desired, confirm: string, errors: seq<string>)
    returns (r: PromoteResult)
    modifies store
    ensures store.releases == Step(old(store.releases), Promote(want, confirm, errors))
    ensures r.published <==> want.tag in store.releases && !store.releases[want.tag].draft
    ensures r.draftUnchanged <==> store.releases == old(store.releases)
    ensures !r.draftUnchanged <==> MayPublish(old(store.releases), want, confirm, errors)
  {
    var existing := store.Get(want.tag);
    if existing.None? { return PromoteResult(false, true); }
    var rel := existing.value;
    if !rel.draft { return PromoteResult(true, true); }
    if confirm != "publish" { return PromoteResult(false, true); }
    if errors != [] { return PromoteResult(false, true); }
    if rel.gitSha != want.gitSha { return PromoteResult(false, true); }
    if rel.name != want.name || rel.body != want.body || rel.prerelease != want.prerelease {
      return PromoteResult(false, true);
    }
    var published := store.PromoteTag(want.tag);
    assert old(store.releases)[want.tag].draft && !store.releases[want.tag].draft;
    return PromoteResult(true, false);
  }

  // ----- every interleaving -------------------------------------------------------------------

  function Run(s: Releases, ops: seq<Op>): Releases {
    if ops == [] then s else Step(Run(s, ops[..|ops| - 1]), ops[|ops| - 1])
  }

  /** What may never change once recorded: identity metadata, attached assets, and publication. */
  predicate Keeps(before: Releases, after: Releases) {
    forall tag :: tag in before ==> tag in after && KeepsRelease(before[tag], after[tag])
  }

  predicate KeepsRelease(before: Release, after: Release) {
    && after.name == before.name && after.body == before.body
    && after.prerelease == before.prerelease && after.gitSha == before.gitSha
    && (after.draft ==> before.draft)
    && (forall asset :: asset in before.assets ==> asset in after.assets && after.assets[asset] == before.assets[asset])
  }

  lemma StepKeeps(s: Releases, op: Op)
    ensures Keeps(s, Step(s, op))
  {
  }

  /** Between any two moments of a run nothing recorded is rewritten. */
  lemma {:induction false} RunKeeps(s: Releases, ops: seq<Op>, i: nat, j: nat)
    requires i <= j <= |ops|
    ensures Keeps(Run(s, ops[..i]), Run(s, ops[..j]))
    decreases j
  {
    if i < j {
      RunKeeps(s, ops, i, j - 1);
      RunSnoc(s, ops, j - 1);
      StepKeeps(Run(s, ops[..j - 1]), ops[j - 1]);
      KeepsTransitive(Run(s, ops[..i]), Run(s, ops[..j - 1]), Run(s, ops[..j]));
    } else {
      KeepsItself(Run(s, ops[..i]));
    }
  }

  lemma RunSnoc(s: Releases, ops: seq<Op>, k: nat)
    requires k < |ops|
    ensures Run(s, ops[..k + 1]) == Step(Run(s, ops[..k]), ops[k])
  {
    assert ops[..k + 1][..k] == ops[..k];
  }

  lemma KeepsItself(s: Releases)
    ensures Keeps(s, s)
  {
  }

  lemma KeepsTransitive(a: Releases, b: Releases, c: Releases)
    requires Keeps(a, b) && Keeps(b, c)
    ensures Keeps(a, c)
  {
    forall tag | tag in a ensures tag in c && KeepsRelease(a[tag], c[tag]) {
      assert KeepsRelease(a[tag], b[tag]) && KeepsRelease(b[tag], c[tag]);
    }
  }

  /** A call publishes a release exactly when it is a promotion that meets the whole gate. */
  predicate Publishes(s: Releases, op: Op, tag: string) {
    op.Promote? && op.want.tag == tag && MayPublish(s, op.want, op.confirm, op.errors)
  }

  predicate IsPublished(s: Releases, tag: string) {
    tag in s && !s[tag].draft
  }

  lemma StepPublishes(s: Releases, op: Op, tag: string)
    ensures IsPublished(Step(s, op), tag) <==> IsPublished(s, tag) || Publishes(s, op, tag)
  {
  }

  predicate PublishesAt(ops: seq<Op>, tag: string, i: int)
    requires 0 <= i < |ops|
  {
    Publishes(Run(map[], ops[..i]), ops[i], tag)
  }

  /**
   Starting from an empty store, a release is published exactly when some call
   of the run passed the whole gate for it; and at most one call ever does.
   */
  lemma {:induction false} PublishedOnlyThroughGate(ops: seq<Op>, tag: string)
    ensures IsPublished(Run(map[], ops), tag)
            <==> exists i :: 0 <= i < |ops| && PublishesAt(ops, tag, i)
  {
    if ops != [] {
      var n := |ops| - 1;
      var before := ops[..n];
      PublishedOnlyThroughGate(before, tag);
      StepPublishes(Run(map[], before), ops[n], tag);
      forall i | 0 <= i < n ensures PublishesAt(before, tag, i) <==> PublishesAt(ops, tag, i) {
        assert before[..i] == ops[..i];
      }
      assert PublishesAt(ops, tag, n) <==> Publishes(Run(map[], before), ops[n], tag);
    }
  }

  lemma {:induction false} PublishedOnce(ops: seq<Op>, tag: string, i: nat, j: nat)
    requires i < j < |ops| && PublishesAt(ops, tag, i)
    ensures !PublishesAt(ops, tag, j)
  {
    assert ops[..i + 1][..i] == ops[..i];
    StepPublishes(Run(map[], ops[..i]), ops[i], tag);
    RunKeeps(map[], ops, i + 1, j);
  }
}
