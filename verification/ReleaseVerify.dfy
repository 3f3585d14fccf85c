/**
 Checking a downloaded directory against a release manifest, and what that
 check means for a directory that was assembled.
 */
module ReleaseVerify {
  import opened Wrappers
  import opened Ordering
  import opened Text
  import opened ReleaseChecksums
  import opened ReleaseBundle

  /** A name the manifest may carry: one path component, no separator of either kind. */
  predicate IsManifestName(name: string) {
    name != "" && name != "." && '/' !in name && '\\' !in name
  }

  /** The digest recorded for each name; the last entry of a repeated name counts. */
  function Recorded(assets: seq<Asset>): map<string, string> {
    if assets == [] then map[]
    else
      var n := |assets| - 1;
      Recorded(assets[..n])[assets[n].name := assets[n].sha256]
  }

  ghost predicate UniqueNames(assets: seq<Asset>) {
    forall i, j :: 0 <= i < j < |assets| ==> assets[i].name != assets[j].name
  }

  ghost predicate AssetsOk(assets: seq<Asset>) {
    && UniqueNames(assets)
    && forall i :: 0 <= i < |assets| ==> IsManifestName(assets[i].name) && IsHex64(assets[i].sha256)
  }

  lemma {:induction false} RecordedNames(assets: seq<Asset>)
    ensures forall name :: name in Recorded(assets) <==> exists i :: 0 <= i < |assets| && assets[i].name == name
  {
    if assets != [] {
      var n := |assets| - 1;
      RecordedNames(assets[..n]);
      forall name ensures name in Recorded(assets) <==> exists i :: 0 <= i < |assets| && assets[i].name == name {
        if i :| 0 <= i < |assets| && assets[i].name == name {
          assert i == n || assets[..n][i].name == name;
        }
      }
    }
  }

  /** When one more entry is acceptable, and what it records. */
  lemma AssetsSnoc(assets: seq<Asset>, entry: Asset)
    ensures Recorded(assets + [entry]) == Recorded(assets)[entry.name := entry.sha256]
    ensures AssetsOk(assets + [entry])
       <==> && AssetsOk(assets) && entry.name !in Recorded(assets)
            && IsManifestName(entry.name) && IsHex64(entry.sha256)
  {
    var all, n := assets + [entry], |assets|;
    assert all[..n] == assets && all[n] == entry;
    RecordedNames(assets);
    if AssetsOk(all) {
      forall i, j | 0 <= i < j < n ensures assets[i].name != assets[j].name {
        assert all[i].name != all[j].name;
      }
      forall i | 0 <= i < n ensures IsManifestName(assets[i].name) && IsHex64(assets[i].sha256) {
        assert all[i] == assets[i];
      }
    }
    if AssetsOk(assets) && entry.name !in Recorded(assets) && IsManifestName(entry.name) && IsHex64(entry.sha256) {
      assert forall i :: 0 <= i < n ==> all[i] == assets[i] && assets[i].name != entry.name;
    }
  }

  lemma AssetsPrefix(assets: seq<Asset>, i: nat)
    requires i <= |assets| && AssetsOk(assets)
    ensures AssetsOk(assets[..i])
  {
    assert forall k :: 0 <= k < i ==> assets[..i][k] == assets[k];
  }

  /** _manifest_assets */
  method ManifestAssets(m: Manifest) returns (r: Result<map<string, string>>)
    ensures r.Ok? <==> m.assets != [] && AssetsOk(m.assets)
    ensures r.Ok? ==> r.value == Recorded(m.assets)
  {
    if m.assets == [] { return Err("manifest assets"); }
    var found: map<string, string> := map[];
    for i := 0 to |m.assets|
      invariant AssetsOk(m.assets[..i])
      invariant found == Recorded(m.assets[..i])
    {
      var entry := m.assets[i];
      assert m.assets[..i + 1] == m.assets[..i] + [entry];
      AssetsSnoc(m.assets[..i], entry);
      if AssetsOk(m.assets) { AssetsPrefix(m.assets, i + 1); }
      if !IsManifestName(entry.name) { return Err("unsafe asset name"); }
      if entry.name in found { return Err("repeated asset"); }
      if !IsHex64(entry.sha256) { return Err("asset sha256"); }
      found := found[entry.name := entry.sha256];
    }
    assert m.assets[..|m.assets|] == m.assets;
    return Ok(found);
  }

  /** _manifest_generated_metadata */
  predicate GeneratedOk(generated: map<string, string>) {
    && generated.Keys == {SUMS, INVENTORY, SBOM}
    && IsHex64(generated[SUMS]) && IsHex64(generated[INVENTORY]) && IsHex64(generated[SBOM])
  }

  predicate SameDigests(t: Tools, files: Files, recorded: map<string, string>) {
    forall name :: name in recorded ==> name in files && t.sha256(files[name]) == recorded[name]
  }

  /** `nested` are the files found below the bundle's top level. */
  ghost predicate Verified(t: Tools, files: Files, nested: set<string>, m: Manifest) {
    && nested == {}
    && m.assets != [] && AssetsOk(m.assets)
    && m.generated.Keys == {"SHA256SUMS", "inventory.txt", "sbom.cdx.json"}
    && (forall name :: name in m.generated ==> IsHex64(m.generated[name]))
    && files.Keys == Recorded(m.assets).Keys + m.generated.Keys + {MANIFEST}
    && ReadText(files[SUMS]) == Ok(Recorded(m.assets))
    && SameDigests(t, files, Recorded(m.assets))
    && SameDigests(t, files, m.generated)
  }

  /** verify_release_bundle_integrity */
  method VerifyBundle(t: Tools, files: Files, nested: set<string>, m: Manifest) returns (r: Result<()>)
    ensures r.Ok? <==> Verified(t, files, nested, m)
  {
    if nested != {} { return Err("release bundle must be flat"); }
    var assets := ManifestAssets(m);
    if assets.Err? { return Err(assets.at); }
    if !GeneratedOk(m.generated) { return Err("generated metadata"); }
    if files.Keys != assets.value.Keys + m.generated.Keys + {MANIFEST} { return Err("asset set mismatch"); }
    assert SUMS in m.generated.Keys && SUMS in files;
    var sums := ReadSums(files[SUMS]);
    if sums.Err? { return Err(sums.at); }
    if sums.value.Keys != assets.value.Keys { return Err("SHA256SUMS asset set mismatch"); }
    if sums.value != assets.value { return Err("SHA256SUMS digest"); }
    var same := DigestsMatch(t, files, assets.value);
    if !same { return Err("asset digest"); }
    same := DigestsMatch(t, files, m.generated);
    if !same { return Err("generated metadata digest"); }
    return Ok(());
  }

  method DigestsMatch(t: Tools, files: Files, recorded: map<string, string>) returns (ok: bool)
    requires recorded.Keys <= files.Keys
    ensures ok <==> SameDigests(t, files, recorded)
  {
    var rest := recorded.Keys;
    while rest != {}
      invariant rest <= recorded.Keys
      invariant forall name :: name in recorded.Keys - rest ==> t.sha256(files[name]) == recorded[name]
      decreases rest
    {
      var name :| name in rest;
      if t.sha256(files[name]) != recorded[name] { return false; }
      rest := rest - {name};
    }
    return true;
  }

  // ----- assembled bundles -------------------------------------------------------------

  lemma {:induction false} RecordedValues(assets: seq<Asset>, i: nat)
    requires UniqueNames(assets) && i < |assets|
    ensures assets[i].name in Recorded(assets) && Recorded(assets)[assets[i].name] == assets[i].sha256
  {
    var n := |assets| - 1;
    if i < n {
      RecordedValues(assets[..n], i);
      assert assets[i].name != assets[n].name;
    }
  }

  lemma AssetsRecord(t: Tools, payload: Files, names: seq<string>, assets: seq<Asset>)
    requires forall name :: name in names <==> name in payload
    requires Distinct(names) && assets == AssetsFor(t, payload, names)
    ensures UniqueNames(assets)
    ensures Recorded(assets) == Digests(t, payload)
  {
    assert UniqueNames(assets);
    RecordedNames(assets);
    forall name | name in payload
      ensures name in Recorded(assets) && Recorded(assets)[name] == t.sha256(payload[name])
    {
      var i :| 0 <= i < |names| && names[i] == name;
      RecordedValues(assets, i);
    }
    forall name | name in Recorded(assets) ensures name in payload {
      var i :| 0 <= i < |assets| && assets[i].name == name;
      assert names[i] in names;
    }
  }

  lemma CatalogRecords(t: Tools, payload: Files)
    ensures Recorded(Catalog(t, payload)) == Digests(t, payload)
    ensures UniqueNames(Catalog(t, payload))
    ensures payload != map[] ==> Catalog(t, payload) != []
  {
    AssetsRecord(t, payload, SortedNames(payload.Keys), Catalog(t, payload));
    assert payload != map[] ==> payload.Keys != {};
    assert Digests(t, payload).Keys == payload.Keys;
  }

  /** A file name that can be released: safe in the manifest and on a checksum line. */
  predicate IsReleasable(name: string) {
    IsSafeName(name) && name != "."
  }

  lemma CatalogOk(t: Tools, payload: Files)
    requires DigestsAreHex(t)
    ensures AssetsOk(Catalog(t, payload)) <==> forall name :: name in payload ==> IsManifestName(name)
  {
    CatalogRecords(t, payload);
    var names := SortedNames(payload.Keys);
    var assets := Catalog(t, payload);
    if AssetsOk(assets) {
      forall name | name in payload ensures IsManifestName(name) {
        var i :| 0 <= i < |names| && names[i] == name;
        assert assets[i].name == name;
      }
    }
    assert forall i :: 0 <= i < |assets| ==> names[i] in payload && assets[i].name == names[i];
  }

  lemma OverlayBundle(t: Tools, payload: Files, g: Generated, manifest: string)
    requires Core(payload) == payload
    ensures var bundle, generated := Overlay(payload, g, manifest), GeneratedDigests(t, g);
            && generated.Keys == {SUMS, INVENTORY, SBOM}
            && MANIFEST !in payload && MANIFEST !in generated
            && bundle.Keys == payload.Keys + generated.Keys + {MANIFEST}
            && (forall name :: name in payload ==> bundle[name] == payload[name])
            && (forall name :: name in generated ==> generated[name] == t.sha256(bundle[name]))
  {
    var bundle := Overlay(payload, g, manifest);
    OverlayParts(payload, g, manifest);
    DistinctNames();
    forall name | name in payload ensures bundle[name] == payload[name] {
      assert name in Core(payload) && Core(bundle)[name] == bundle[name];
    }
  }

  lemma BundleParts(t: Tools, identity: Identity, payload: Files)
    requires Core(payload) == payload
    ensures var bundle, generated := Bundle(t, identity, payload), ManifestOf(t, identity, payload).generated;
            && generated.Keys == {SUMS, INVENTORY, SBOM}
            && MANIFEST !in payload && MANIFEST !in generated
            && bundle.Keys == payload.Keys + generated.Keys + {MANIFEST}
            && (forall name :: name in payload ==> bundle[name] == payload[name])
            && (forall name :: name in generated ==> generated[name] == t.sha256(bundle[name]))
  {
    OverlayBundle(t, payload, GeneratedFor(t, identity, payload), t.render(ManifestOf(t, identity, payload)));
  }

  lemma DigestsAgree(t: Tools, bundle: Files, payload: Files, generated: map<string, string>, files: Files)
    requires files.Keys == bundle.Keys == payload.Keys + generated.Keys + {MANIFEST}
    requires MANIFEST !in payload && MANIFEST !in generated
    requires forall name :: name in payload ==> bundle[name] == payload[name]
    requires forall name :: name in generated ==> generated[name] == t.sha256(bundle[name])
    ensures SameDigests(t, files, Digests(t, payload)) && SameDigests(t, files, generated)
            <==> SameButManifest(t, files, bundle)
  {
    if SameButManifest(t, files, bundle) {
      forall name | name in Digests(t, payload) ensures t.sha256(files[name]) == Digests(t, payload)[name] {
        assert name in bundle;
      }
      forall name | name in generated ensures t.sha256(files[name]) == generated[name] {
        assert name in bundle;
      }
    }
    if SameDigests(t, files, Digests(t, payload)) && SameDigests(t, files, generated) {
      forall name | name in bundle && name != MANIFEST ensures t.sha256(files[name]) == t.sha256(bundle[name]) {
        assert name in Digests(t, payload) || name in generated;
      }
    }
  }

  /** The digests agree on every file of the bundle but its manifest. */
  predicate SameButManifest(t: Tools, files: Files, bundle: Files) {
    forall name :: name in bundle && name != MANIFEST ==> name in files && t.sha256(files[name]) == t.sha256(bundle[name])
  }

  lemma ReadNamesReleasable(text: string, sums: map<string, string>)
    requires ReadText(text) == Ok(sums)
    ensures (forall name :: name in sums ==> IsReleasable(name))
            <==> forall name :: name in sums ==> IsManifestName(name)
  {
    ReadNamesSafe(SplitLines(text), map[]);
  }

  /**
   Under an assembled bundle's manifest a directory is accepted exactly when it
   is flat, carries only releasable names, has the bundle's file names, agrees
   with it on every digest but the manifest's own, and its checksum file reads
   as the bundle's checksums.
   */
  lemma VerifiedExact(t: Tools, identity: Identity, payload: Files, files: Files, nested: set<string>)
    requires DigestsAreHex(t) && payload != map[] && Core(payload) == payload
    ensures var bundle := Bundle(t, identity, payload);
            Verified(t, files, nested, ManifestOf(t, identity, payload))
            <==> && nested == {}
                 && (forall name :: name in payload ==> IsReleasable(name))
                 && files.Keys == bundle.Keys
                 && SameButManifest(t, files, bundle)
                 && ReadText(files[SUMS]) == Ok(Digests(t, payload))
  {
    var m, bundle := ManifestOf(t, identity, payload), Bundle(t, identity, payload);
    var sums := Digests(t, payload);
    BundleParts(t, identity, payload);
    CatalogRecords(t, payload);
    CatalogOk(t, payload);
    assert sums.Keys == payload.Keys;
    GeneratedHex(t, GeneratedFor(t, identity, payload));
    assert SUMS in m.generated;
    if files.Keys == bundle.Keys {
      DigestsAgree(t, bundle, payload, m.generated, files);
      if ReadText(files[SUMS]) == Ok(sums) {
        ReadNamesReleasable(files[SUMS], sums);
      }
    }
  }

  lemma GeneratedHex(t: Tools, g: Generated)
    requires DigestsAreHex(t)
    ensures GeneratedDigests(t, g).Keys == {"SHA256SUMS", "inventory.txt", "sbom.cdx.json"}
    ensures forall name :: name in GeneratedDigests(t, g) ==> IsHex64(GeneratedDigests(t, g)[name])
  {
  }

  lemma BundleSums(t: Tools, identity: Identity, payload: Files)
    requires DigestsAreHex(t) && payload != map[]
    ensures var bundle := Bundle(t, identity, payload);
            && SUMS in bundle && bundle[SUMS] == GeneratedFor(t, identity, payload).sums
            && SUMS != MANIFEST
            && (ReadText(bundle[SUMS]) == Ok(Digests(t, payload)) <==> forall name :: name in payload ==> IsSafeName(name))
  {
    OverlayParts(payload, GeneratedFor(t, identity, payload), t.render(ManifestOf(t, identity, payload)));
    DistinctNames();
    assert Digests(t, payload).Keys == payload.Keys;
    ReadUndoesWrite(Digests(t, payload));
  }

  /** A freshly assembled bundle passes verification exactly when its file names are releasable. */
  lemma AssembledVerifies(t: Tools, identity: Identity, payload: Files)
    requires DigestsAreHex(t) && payload != map[] && Core(payload) == payload
    ensures Verified(t, Bundle(t, identity, payload), {}, ManifestOf(t, identity, payload))
            <==> forall name :: name in payload ==> IsReleasable(name)
  {
    var bundle := Bundle(t, identity, payload);
    VerifiedExact(t, identity, payload, bundle, {});
    BundleSums(t, identity, payload);
  }

  /**
   When the digest has no collision on the checksum file, the names and digests
   alone decide: any missing, extra or altered file is refused, except that the
   manifest file itself is never compared.
   */
  lemma TamperDetected(t: Tools, identity: Identity, payload: Files, files: Files)
    requires DigestsAreHex(t) && payload != map[] && Core(payload) == payload
    requires forall name :: name in payload ==> IsReleasable(name)
    requires SUMS in files && t.sha256(files[SUMS]) == t.sha256(GeneratedFor(t, identity, payload).sums) ==>
      files[SUMS] == GeneratedFor(t, identity, payload).sums
    ensures var bundle := Bundle(t, identity, payload);
            Verified(t, files, {}, ManifestOf(t, identity, payload))
            <==> files.Keys == bundle.Keys && SameButManifest(t, files, bundle)
  {
    VerifiedExact(t, identity, payload, files, {});
    BundleSums(t, identity, payload);
  }

  /** The manifest file is never compared: any text in its place passes. */
  lemma ManifestFileUnchecked(t: Tools, identity: Identity, payload: Files, text: string)
    requires DigestsAreHex(t) && payload != map[] && Core(payload) == payload
    requires forall name :: name in payload ==> IsReleasable(name)
    ensures Verified(t, Bundle(t, identity, payload)[MANIFEST := text], {}, ManifestOf(t, identity, payload))
  {
    var bundle := Bundle(t, identity, payload);
    var files := bundle[MANIFEST := text];
    BundleParts(t, identity, payload);
    BundleSums(t, identity, payload);
    assert files[SUMS] == bundle[SUMS];
    ManifestReplaced(t, bundle, text);
    VerifiedExact(t, identity, payload, files, {});
  }

  lemma ManifestReplaced(t: Tools, bundle: Files, text: string)
    requires MANIFEST in bundle
    ensures bundle[MANIFEST := text].Keys == bundle.Keys && SameButManifest(t, bundle[MANIFEST := text], bundle)
  {
  }

  lemma StagedPayload(files: Files, latest: Option<string>)
    ensures var payload := Payload(Staged(files), latest);
            && Core(payload) == payload
            && Staged(payload) == Staged(files)
            && (LATEST in payload <==> latest.Some?)
            && (LATEST in payload ==> payload[LATEST] == latest.value)
  {
    DistinctNames();
  }

  /**
   Whatever `assemble` leaves behind passes verification under the manifest it
   returned, exactly when the released file names are releasable.
   */
  lemma AssembleThenVerify(
    t: Tools, identity: Identity, requireSigned: bool, before: Files, after: Files, m: Manifest)
    requires DigestsAreHex(t) && IsAssembled(t, identity, requireSigned, before, after, m)
    ensures Verified(t, after, {}, m) <==> forall name :: name in Core(after) ==> IsReleasable(name)
  {
    var latest :| && LatestIs(t, identity, requireSigned, before, latest)
                  && IsBundle(t, identity, Payload(Staged(before), latest), after, m);
    var payload := Payload(Staged(before), latest);
    StagedPayload(before, latest);
    BundleCore(t, identity, payload);
    AssembledVerifies(t, identity, payload);
  }

  lemma BundleCore(t: Tools, identity: Identity, payload: Files)
    requires Core(payload) == payload
    ensures Core(Bundle(t, identity, payload)) == payload
  {
    OverlayParts(payload, GeneratedFor(t, identity, payload), t.render(ManifestOf(t, identity, payload)));
  }

  /** What a second assembly sees of a bundle: the same staged files and the same updater metadata. */
  lemma BundleRestages(t: Tools, identity: Identity, requireSigned: bool, files: Files, latest: Option<string>)
    requires LatestIs(t, identity, requireSigned, files, latest)
    ensures var bundle := Bundle(t, identity, Payload(Staged(files), latest));
            && Staged(bundle) == Staged(files)
            && forall again :: LatestIs(t, identity, requireSigned, bundle, again) <==> again == latest
  {
    var payload := Payload(Staged(files), latest);
    var bundle := Bundle(t, identity, payload);
    StagedPayload(files, latest);
    BundleCore(t, identity, payload);
    StagedCore(bundle);
    DistinctNames();
    assert LATEST in bundle <==> LATEST in Core(bundle);
    assert LATEST in bundle ==> bundle[LATEST] == Core(bundle)[LATEST];
  }

  /**
   An assembled bundle can be assembled again exactly when reuse detection does
   not fire on it, and every such assembly reproduces it byte for byte.
   */
  lemma ReassemblyIsStable(
    t: Tools, identity: Identity, requireSigned: bool, files: Files, after: Files, m: Manifest)
    requires IsAssembled(t, identity, requireSigned, files, after, m)
    ensures Assemblable(t, identity, requireSigned, files) ==>
      (Assemblable(t, identity, requireSigned, after) <==> !t.reuseFound(identity, after))
    ensures forall again, m' :: IsAssembled(t, identity, requireSigned, after, again, m') ==> again == after && m' == m
  {
    var latest :| && LatestIs(t, identity, requireSigned, files, latest)
                  && IsBundle(t, identity, Payload(Staged(files), latest), after, m);
    BundleRestages(t, identity, requireSigned, files, latest);
    if Assemblable(t, identity, requireSigned, files) {
      var accepted :| LatestAccepted(t, identity, requireSigned, files, accepted);
      assert accepted == latest;
      assert LatestAccepted(t, identity, requireSigned, after, latest);
    }
    forall again, m' | IsAssembled(t, identity, requireSigned, after, again, m') ensures again == after && m' == m {
      var l :| && LatestIs(t, identity, requireSigned, after, l)
               && IsBundle(t, identity, Payload(Staged(after), l), again, m');
      assert l == latest;
    }
  }
}
