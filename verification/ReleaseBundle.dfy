/**
 A release bundle: `assemble` turns a flat directory of staged assets into a
 bundle with checksums, inventory, SBOM and manifest, and
 `verify_release_bundle_integrity` checks a directory against a manifest.
 */
module ReleaseBundle {
  import opened Wrappers
  import opened Ordering
  import opened Text
  import opened ReleaseChecksums

  const SUMS := "SHA256SUMS"
  const INVENTORY := "inventory.txt"
  const SBOM := "sbom.cdx.json"
  const MANIFEST := "release-manifest.json"
  const LATEST := "latest.json"

  predicate IsGenerated(name: string) {
    name == SUMS || name == INVENTORY || name == SBOM
  }

  predicate IsMetadata(name: string) {
    IsGenerated(name) || name == MANIFEST || name == LATEST
  }

  lemma DistinctNames()
    ensures SUMS != INVENTORY && SUMS != SBOM && INVENTORY != SBOM
    ensures !IsGenerated(MANIFEST) && !IsGenerated(LATEST) && MANIFEST != LATEST
  {
    assert |SUMS| == 10 && |INVENTORY| == 13 && |SBOM| == 13 && |MANIFEST| == 21 && |LATEST| == 11;
    assert INVENTORY[0] == 'i' && SBOM[0] == 's';
  }

  datatype Identity = Identity(
    tag: string, version: string, gitSha: string, gitDescribe: string, channel: string,
    ga: bool, sourceTimestamp: string)

  datatype Asset = Asset(name: string, sha256: string, kind: string, platform: Option<string>)

  datatype Manifest = Manifest(
    identity: Identity,
    draft: bool,
    published: bool,
    autoPublish: bool,
    promotable: bool,
    assets: seq<Asset>,
    generated: map<string, string>,
    signed: bool)

  type Files = map<string, string>

  /**
   What assembly takes from elsewhere: the digest, name classification, the
   renderers of generated files, and the verdicts of the reuse, matrix and
   signature checks.  All of them are functions of what they are given.
   */
  datatype Tools = Tools(
    sha256: string -> string,
    classify: string -> (string, Option<string>),
    inventory: (Identity, seq<Asset>) -> string,
    sbom: (Identity, seq<Asset>) -> string,
    render: Manifest -> string,
    reuseFound: (Identity, Files) -> bool,
    matricesComplete: seq<Asset> -> bool,
    sidecarsValid: (Files, seq<Asset>) -> bool,
    buildLatest: (Identity, Files) -> Option<string>,
    latestValid: (Identity, string, Files) -> bool)

  ghost predicate DigestsAreHex(t: Tools) {
    forall content :: IsHex64(t.sha256(content))
  }

  // ----- what assembly produces -------------------------------------------------------

  function Staged(files: Files): Files {
    map name | name in files && !IsMetadata(name) :: files[name]
  }

  predicate MustSign(identity: Identity, requireSigned: bool) {
    requireSigned || identity.ga
  }

  /** The released files: the staged ones, and the updater metadata when there is any. */
  function Payload(staged: Files, latest: Option<string>): Files {
    match latest
    case None => staged
    case Some(text) => staged[LATEST := text]
  }

  function Digests(t: Tools, files: Files): map<string, string> {
    map name | name in files :: t.sha256(files[name])
  }

  function AssetFor(t: Tools, files: Files, name: string): Asset
    requires name in files
  {
    var (kind, platform) := if IsMetadata(name) then ("metadata", None) else t.classify(name);
    Asset(name, t.sha256(files[name]), kind, platform)
  }

  function AssetsFor(t: Tools, files: Files, names: seq<string>): (assets: seq<Asset>)
    requires forall name :: name in names ==> name in files
    ensures |assets| == |names|
    ensures forall i :: 0 <= i < |names| ==> assets[i] == AssetFor(t, files, names[i])
  {
    seq(|names|, i requires 0 <= i < |names| => AssetFor(t, files, names[i]))
  }

  ghost function Catalog(t: Tools, payload: Files): seq<Asset> {
    AssetsFor(t, payload, SortedNames(payload.Keys))
  }

  /** The contents of the three generated files. */
  datatype Generated = Generated(sums: string, inventory: string, sbom: string)

  ghost function GeneratedFor(t: Tools, identity: Identity, payload: Files): Generated {
    Generated(SumsFile(Digests(t, payload)),
              t.inventory(identity, Catalog(t, payload)),
              t.sbom(identity, Catalog(t, payload)))
  }

  function GeneratedDigests(t: Tools, g: Generated): map<string, string> {
    map[SUMS := t.sha256(g.sums), INVENTORY := t.sha256(g.inventory), SBOM := t.sha256(g.sbom)]
  }

  /** `files` after writing the three generated files and the manifest. */
  function Overlay(files: Files, g: Generated, manifest: string): Files {
    files[SUMS := g.sums][INVENTORY := g.inventory][SBOM := g.sbom][MANIFEST := manifest]
  }

  /** `files` without the three generated files and the manifest. */
  function Core(files: Files): Files {
    map name | name in files && !IsGenerated(name) && name != MANIFEST :: files[name]
  }

  lemma OverlayParts(files: Files, g: Generated, manifest: string)
    ensures var out := Overlay(files, g, manifest);
            && out == Overlay(Core(files), g, manifest)
            && Core(out) == Core(files)
            && out.Keys == Core(files).Keys + {SUMS, INVENTORY, SBOM, MANIFEST}
            && out[SUMS] == g.sums && out[INVENTORY] == g.inventory && out[SBOM] == g.sbom
            && out[MANIFEST] == manifest
  {
    DistinctNames();
  }

  lemma StagedCore(files: Files)
    ensures Staged(files) == Staged(Core(files))
  {
  }

  function ManifestFor(identity: Identity, assets: seq<Asset>, generated: map<string, string>, signed: bool): Manifest {
    Manifest(identity, true, false, false, true, assets, generated, signed)
  }

  ghost function ManifestOf(t: Tools, identity: Identity, payload: Files): Manifest {
    ManifestFor(identity, Catalog(t, payload),
                GeneratedDigests(t, GeneratedFor(t, identity, payload)), LATEST in payload)
  }

  ghost function Bundle(t: Tools, identity: Identity, payload: Files): Files {
    Overlay(payload, GeneratedFor(t, identity, payload), t.render(ManifestOf(t, identity, payload)))
  }

  /** The updater metadata of this release: rebuilt when signing is required, kept when present. */
  ghost predicate LatestIs(t: Tools, identity: Identity, requireSigned: bool, files: Files, latest: Option<string>) {
    if MustSign(identity, requireSigned) then latest.Some? && latest == t.buildLatest(identity, Staged(files))
    else latest == if LATEST in files then Some(files[LATEST]) else None
  }

  /**
   The catalogue lists every released file once, in name order, with its digest; a
   staged file carries its classified kind and platform, and only the updater
   metadata is listed as metadata.
   */
  lemma CatalogExact(t: Tools, payload: Files)
    requires Core(payload) == payload
    ensures var c := Catalog(t, payload);
            && (forall name :: name in payload <==> exists i :: 0 <= i < |c| && c[i].name == name)
            && (forall i, j :: 0 <= i < j < |c| ==> Precedes(c[i].name, c[j].name))
            && forall i :: 0 <= i < |c| ==>
                 && c[i].name in payload && c[i].sha256 == t.sha256(payload[c[i].name])
                 && (c[i].kind, c[i].platform) == (if c[i].name == "latest.json" then ("metadata", None) else t.classify(c[i].name))
  {
    var names, c := SortedNames(payload.Keys), Catalog(t, payload);
    forall name | name in payload ensures exists i :: 0 <= i < |c| && c[i].name == name {
      assert name in names;
      var i :| 0 <= i < |names| && names[i] == name;
      assert c[i].name == name;
    }
    forall i | 0 <= i < |c|
      ensures c[i].name == names[i] && c[i].name in payload && (IsMetadata(c[i].name) <==> c[i].name == "latest.json")
    {
      assert names[i] in names && names[i] in Core(payload);
    }
  }

  /** Every assembled manifest is a promotable, unpublished draft that promises no publication. */
  lemma ManifestExact(t: Tools, identity: Identity, payload: Files)
    ensures var m := ManifestOf(t, identity, payload);
            && m.identity == identity && m.assets == Catalog(t, payload)
            && m.draft && !m.published && !m.autoPublish && m.promotable
            && (m.signed <==> "latest.json" in payload)
  {
  }

  // ----- assemble ---------------------------------------------------------------------

  class Directory {
    var files: Files

    constructor (files: Files)
      ensures this.files == files
    {
      this.files := files;
    }
  }

  predicate DraftOnly(m: Manifest) {
    !m.published && m.draft && !m.autoPublish && m.identity.channel == "installed"
  }

  /** Everything assembly demands of a directory. */
  ghost predicate Assemblable(t: Tools, identity: Identity, requireSigned: bool, files: Files) {
    var staged := Staged(files);
    && staged != map[] && !t.reuseFound(identity, files)
    && t.matricesComplete(Catalog(t, staged)) && t.sidecarsValid(staged, Catalog(t, staged))
    && identity.channel == "installed"
    && exists latest :: LatestAccepted(t, identity, requireSigned, files, latest)
  }

  ghost predicate LatestAccepted(
    t: Tools, identity: Identity, requireSigned: bool, files: Files, latest: Option<string>)
  {
    && LatestIs(t, identity, requireSigned, files, latest)
    && (latest.Some? ==> t.latestValid(identity, latest.value, Payload(Staged(files), latest)))
  }

  /** `after` is the bundle of what was staged in `before`, and `m` is its manifest. */
  ghost predicate IsAssembled(
    t: Tools, identity: Identity, requireSigned: bool, before: Files, after: Files, m: Manifest)
  {
    exists latest ::
      && LatestIs(t, identity, requireSigned, before, latest)
      && IsBundle(t, identity, Payload(Staged(before), latest), after, m)
  }

  ghost predicate IsBundle(t: Tools, identity: Identity, payload: Files, after: Files, m: Manifest) {
    payload != map[] && after == Bundle(t, identity, payload) && m == ManifestOf(t, identity, payload)
  }

  /**
   Succeeds exactly on an assemblable directory; the directory is then the
   bundle of its staged files and the result is that bundle's manifest.  No
   outcome touches a staged file.
   */
  method Assemble(d: Directory, identity: Identity, requireSigned: bool, t: Tools) returns (r: Result<Manifest>)
    modifies d
    ensures Staged(d.files) == Staged(old(d.files))
    ensures r.Ok? <==> Assemblable(t, identity, requireSigned, old(d.files))
    ensures r.Ok? ==> IsAssembled(t, identity, requireSigned, old(d.files), d.files, r.value)
  {
    var staged := Staged(d.files);
    if staged == map[] { return Err("no assets"); }
    if t.reuseFound(identity, d.files) { return Err("foreign reuse"); }
    var collected := CatalogOf(t, staged);
    if !t.matricesComplete(collected) { return Err("incomplete matrix"); }
    if !t.sidecarsValid(staged, collected) { return Err("signature sidecar"); }

    var latest: Option<string> := None;
    if MustSign(identity, requireSigned) {
      latest := t.buildLatest(identity, staged);
      if latest.None? { return Err("latest.json"); }
      StagedLatest(d.files, latest.value);
      d.files := d.files[LATEST := latest.value];
      if !t.latestValid(identity, latest.value, Payload(staged, latest)) { return Err("latest.json"); }
    } else if LATEST in d.files {
      latest := Some(d.files[LATEST]);
      if !t.latestValid(identity, latest.value, Payload(staged, latest)) { return Err("latest.json"); }
    }
    if identity.ga && latest.None? { return Err("GA assemble refused"); }

    var payload := Payload(staged, latest);
    PayloadIsCore(d.files, latest);
    StagedCore(d.files);
    r := WriteMetadata(d, identity, payload, t);
    StagedCore(d.files);
    assert LatestAccepted(t, identity, requireSigned, old(d.files), latest);
    assert r.Ok? ==> IsBundle(t, identity, payload, d.files, r.value);
  }

  method CatalogOf(t: Tools, files: Files) returns (assets: seq<Asset>)
    ensures assets == Catalog(t, files)
  {
    var names := SortNames(files.Keys);
    assets := ListAssets(t, files, names);
  }

  method ListAssets(t: Tools, files: Files, names: seq<string>) returns (assets: seq<Asset>)
    requires forall name :: name in names ==> name in files
    ensures assets == AssetsFor(t, files, names)
  {
    assets := [];
    for i := 0 to |names|
      invariant |assets| == i
      invariant forall k :: 0 <= k < i ==> assets[k] == AssetFor(t, files, names[k])
    {
      assets := assets + [AssetFor(t, files, names[i])];
    }
  }

  /** The tail of assemble: checksums, inventory, SBOM, then the manifest over all of them. */
  method WriteMetadata(d: Directory, identity: Identity, payload: Files, t: Tools) returns (r: Result<Manifest>)
    requires payload != map[] && Core(d.files) == payload
    modifies d
    ensures Core(d.files) == payload
    ensures d.files == Bundle(t, identity, payload)
    ensures r.Ok? <==> identity.channel == "installed"
    ensures r.Ok? ==> r.value == ManifestOf(t, identity, payload)
  {
    ghost var before := d.files;
    var assets := CatalogOf(t, payload);
    assert Digests(t, payload).Keys == payload.Keys;
    var sums := WriteSums(Digests(t, payload));
    var g := Generated(sums.value, t.inventory(identity, assets), t.sbom(identity, assets));
    d.files := d.files[SUMS := g.sums];
    d.files := d.files[INVENTORY := g.inventory];
    d.files := d.files[SBOM := g.sbom];
    var manifest := ManifestFor(identity, assets, GeneratedDigests(t, g), LATEST in payload);
    d.files := d.files[MANIFEST := t.render(manifest)];
    OverlayParts(before, g, t.render(manifest));
    if !DraftOnly(manifest) { return Err("channel"); }
    return Ok(manifest);
  }

  lemma PayloadIsCore(files: Files, latest: Option<string>)
    requires LATEST in files ==> latest == Some(files[LATEST])
    requires LATEST !in files ==> latest == None
    ensures Core(files) == Payload(Staged(files), latest)
  {
    DistinctNames();
  }

  lemma StagedLatest(files: Files, text: string)
    ensures Staged(files[LATEST := text]) == Staged(files)
  {
  }
}
