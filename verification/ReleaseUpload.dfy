/** Resuming a partial upload: plan_resumable_upload and the rounds of uploads it drives. */
module ReleaseUpload {
  import opened Wrappers
  import opened Ordering
  import opened ReleaseBundle

  datatype Plan = Plan(upload: seq<string>, skipped: seq<string>)

  predicate SameDigest(t: Tools, local: Files, existing: Files, name: string) {
    name in local && name in existing && t.sha256(existing[name]) == t.sha256(local[name])
  }

  /** The draft holds only local files, each with the local digest. */
  ghost predicate Resumable(t: Tools, local: Files, existing: Files) {
    forall name :: name in existing ==> SameDigest(t, local, existing, name)
  }

  /**
   Succeeds exactly on a resumable draft, and then splits the local names, in
   order, into those the draft lacks and those it already holds.
   */
  method PlanResumableUpload(t: Tools, local: Files, existing: Files) returns (r: Result<Plan>)
    ensures r.Ok? <==> Resumable(t, local, existing)
    ensures r.Ok? ==> r.value == Plan(SortedNames(local.Keys - existing.Keys), SortedNames(existing.Keys))
  {
    if !(existing.Keys <= local.Keys) {
      ghost var name :| name in existing.Keys && name !in local.Keys;
      assert name in existing && !SameDigest(t, local, existing, name);
      return Err("assets absent from local bundle");
    }
    var names := SortNames(local.Keys);
    r := SplitNames(t, local, existing, names);
    if r.Ok? {
      SplitOfSorted(local.Keys, existing.Keys, r.value.upload, r.value.skipped);
    }
  }

  method SplitNames(t: Tools, local: Files, existing: Files, names: seq<string>) returns (r: Result<Plan>)
    requires Ascending(names, LexLt)
    requires forall name :: name in names <==> name in local
    requires forall name :: name in existing ==> name in local
    ensures r.Ok? <==> Resumable(t, local, existing)
    ensures r.Ok? ==> IsSplit(names, existing.Keys, r.value.upload, r.value.skipped)
  {
    var upload: seq<string>, skipped: seq<string> := [], [];
    for i := 0 to |names|
      invariant IsSplit(names[..i], existing.Keys, upload, skipped)
      invariant forall k :: 0 <= k < i && names[k] in existing ==> SameDigest(t, local, existing, names[k])
    {
      SplitGrows(names, i, existing.Keys, upload, skipped);
      var name := names[i];
      if name !in existing {
        upload := upload + [name];
        continue;
      }
      if t.sha256(local[name]) != t.sha256(existing[name]) {
        assert !SameDigest(t, local, existing, name);
        return Err("refusing to replace existing draft asset");
      }
      skipped := skipped + [name];
    }
    assert names[..|names|] == names;
    return Ok(Plan(upload, skipped));
  }

  /** `upload` and `skipped` are the ascending parts of `names` outside and inside `held`. */
  ghost predicate IsSplit(names: seq<string>, held: set<string>, upload: seq<string>, skipped: seq<string>) {
    && Ascending(upload, LexLt) && Ascending(skipped, LexLt)
    && (forall name :: name in upload <==> name in names && name !in held)
    && (forall name :: name in skipped <==> name in names && name in held)
  }

  lemma SplitGrows(names: seq<string>, i: nat, held: set<string>, upload: seq<string>, skipped: seq<string>)
    requires i < |names| && Ascending(names, LexLt) && IsSplit(names[..i], held, upload, skipped)
    ensures names[i] !in held ==> IsSplit(names[..i + 1], held, upload + [names[i]], skipped)
    ensures names[i] in held ==> IsSplit(names[..i + 1], held, upload, skipped + [names[i]])
  {
    assert names[..i + 1] == names[..i] + [names[i]];
    SnocAscending(names, i, upload);
    SnocAscending(names, i, skipped);
  }

  lemma SnocAscending(names: seq<string>, i: nat, part: seq<string>)
    requires i < |names| && Ascending(names, LexLt) && Ascending(part, LexLt)
    ensures (forall name :: name in part ==> name in names[..i]) ==> Ascending(part + [names[i]], LexLt)
  {
    if forall name :: name in part ==> name in names[..i] {
      forall k | 0 <= k < |part| ensures LexLt(part[k], names[i]) {
        assert part[k] in names[..i];
        var j :| 0 <= j < i && names[j] == part[k];
      }
    }
  }

  lemma SplitOfSorted(all: set<string>, held: set<string>, upload: seq<string>, skipped: seq<string>)
    requires IsSplit(SortedNames(all), held, upload, skipped) && held <= all
    ensures upload == SortedNames(all - held)
    ensures skipped == SortedNames(held)
  {
    LexStrictTotal();
    SameElements(upload, SortedNames(all - held));
    SameElements(skipped, SortedNames(held));
    AscendingUnique(upload, SortedNames(all - held), LexLt);
    AscendingUnique(skipped, SortedNames(held), LexLt);
  }

  // ----- rounds of partial uploads ---------------------------------------------------------

  function Missing(local: Files, remote: Files): set<string> {
    local.Keys - remote.Keys
  }

  /** One attempt: of the planned uploads, the names in `landed` arrive. */
  function Round(local: Files, remote: Files, landed: set<string>): Files {
    remote + map name | name in landed && name in Missing(local, remote) :: local[name]
  }

  function Rounds(local: Files, attempts: seq<set<string>>): Files {
    if attempts == [] then map[]
    else
      var n := |attempts| - 1;
      Round(local, Rounds(local, attempts[..n]), attempts[n])
  }

  predicate SubFiles(remote: Files, local: Files) {
    forall name :: name in remote ==> name in local && remote[name] == local[name]
  }

  /** From an empty draft no attempt ever needs a replacement: the plan always succeeds. */
  lemma {:induction false} AlwaysResumable(t: Tools, local: Files, attempts: seq<set<string>>)
    ensures SubFiles(Rounds(local, attempts), local)
    ensures Resumable(t, local, Rounds(local, attempts))
  {
    if attempts != [] {
      AlwaysResumable(t, local, attempts[..|attempts| - 1]);
    }
  }

  /** An attempt keeps every remote file, and shrinks what is missing by exactly what landed. */
  lemma RoundShrinks(local: Files, remote: Files, landed: set<string>)
    ensures var next := Round(local, remote, landed);
            && (forall name :: name in remote ==> name in next && next[name] == remote[name])
            && Missing(local, next) == Missing(local, remote) - landed
            && (landed * Missing(local, remote) != {} ==> |Missing(local, next)| < |Missing(local, remote)|)
  {
    var before, after := Missing(local, remote), Missing(local, Round(local, remote, landed));
    assert after == before - landed;
    if landed * before != {} {
      var name :| name in landed * before;
      assert after <= before - {name};
      SubsetSize(after, before - {name});
    }
  }

  /** The k-th attempt lands a missing file, if any file is still missing. */
  ghost predicate ProgressAt(local: Files, attempts: seq<set<string>>, k: int)
    requires 0 <= k < |attempts|
  {
    var missing := Missing(local, Rounds(local, attempts[..k]));
    missing == {} || attempts[k] * missing != {}
  }

  ghost predicate Progressing(local: Files, attempts: seq<set<string>>) {
    forall k :: 0 <= k < |attempts| ==> ProgressAt(local, attempts, k)
  }

  lemma {:induction false} MissingBound(local: Files, attempts: seq<set<string>>)
    requires Progressing(local, attempts)
    ensures var missing := Missing(local, Rounds(local, attempts));
            missing == {} || |missing| + |attempts| <= |local|
  {
    if attempts == [] {
      assert Missing(local, map[]) == local.Keys;
    } else {
      var n := |attempts| - 1;
      var before := attempts[..n];
      forall k | 0 <= k < n ensures ProgressAt(local, before, k) {
        assert before[..k] == attempts[..k];
        assert ProgressAt(local, attempts, k);
      }
      MissingBound(local, before);
      assert ProgressAt(local, attempts, n);
      RoundShrinks(local, Rounds(local, before), attempts[n]);
    }
  }

  /**
   If every attempt lands at least one missing file, as many attempts as there
   are files finish the upload with the draft equal to the local bundle.
   */
  lemma {:induction false} UploadCompletes(t: Tools, local: Files, attempts: seq<set<string>>)
    requires Progressing(local, attempts) && |attempts| >= |local|
    ensures Rounds(local, attempts) == local
  {
    var remote := Rounds(local, attempts);
    MissingBound(local, attempts);
    AlwaysResumable(t, local, attempts);
    assert |Missing(local, remote)| == 0;
    NothingMissing(local, remote);
  }

  lemma NothingMissing(local: Files, remote: Files)
    requires SubFiles(remote, local) && Missing(local, remote) == {}
    ensures remote == local
  {
    assert forall name :: name in local ==> name in remote || name in Missing(local, remote);
    assert remote.Keys == local.Keys;
  }
}
