/** Exporting a portable bundle and validating it afterwards (crates/pengu-mesh-core/src/lib.rs). */
module ReplayExport {
  import opened Artifacts
  import opened Common
  import opened ReplayBundles
  import opened BundlePromotion

  datatype ExportError = NotStaged(error: StageError) | IoFailed | NotPromoted

  function BundleOf(runId: string, staged: Staged): Tree {
    Tree(Some(Manifest(runId, FINAL, staged.records)), staged.files)
  }

  /** The two states differ at most in the staging directory. */
  ghost predicate SameApartFrom(staging: string, s: Trees, t: Trees) {
    s - {staging} == t - {staging}
  }

  /** So far the steps `prepared` were taken, and none touched anything but the staging directory. */
  ghost predicate Preparing(root: ReplayRoot, staging: string, before: Trees, past: seq<Trees>, prepared: seq<Trees>)
    reads root
  {
    && root.history == past + prepared
    && SameApartFrom(staging, root.trees, before)
    && forall s | s in prepared :: SameApartFrom(staging, s, before)
  }

  method SetStaging(root: ReplayRoot, staging: string, tree: Option<Tree>, ghost before: Trees, ghost past: seq<Trees>,
                    ghost prepared: seq<Trees>)
    returns (ghost prepared': seq<Trees>)
    requires Preparing(root, staging, before, past, prepared)
    modifies root
    ensures Preparing(root, staging, before, past, prepared')
    ensures tree.Some? ==> root.trees == old(root.trees)[staging := tree.value]
  {
    root.trees := if tree.Some? then root.trees[staging := tree.value] else root.trees - {staging};
    root.history := root.history + [root.trees];
    prepared' := prepared + [root.trees];
    assert root.trees - {staging} == old(root.trees) - {staging};
  }

  /** Copies the artifacts into the staging directory; any I/O operation may fail. */
  method StageArtifacts(root: ReplayRoot, files: map<Path, Bytes>, hash: Hash, artifacts: seq<Artifact>,
                        staging: string, cuts: seq<nat>)
    returns (r: Result<Staged, ExportError>, ghost prepared: seq<Trees>)
    modifies root
    ensures Preparing(root, staging, old(root.trees), old(root.history), prepared)
    ensures r.Ok? ==> Stage(files, hash, artifacts) == Ok(r.value)
    ensures r.Err? && r.error.NotStaged? ==> Stage(files, hash, artifacts) == Err(r.error.error)
    ensures r.Err? ==> !r.error.NotPromoted?
  {
    ghost var before, past := root.trees, root.history;
    prepared := SetStaging(root, staging, Some(Tree(None, map[])), before, past, []);
    var staged := Staged(map[], []);
    for i := 0 to |artifacts|
      invariant Stage(files, hash, artifacts[..i]) == Ok(staged)
      invariant Preparing(root, staging, before, past, prepared)
    {
      var a := artifacts[i];
      assert artifacts[..i + 1][..i] == artifacts[..i];
      StageFails(files, hash, artifacts, i);
      if a.path !in files {
        prepared := SetStaging(root, staging, None, before, past, prepared);
        return Err(NotStaged(MissingSource(a.id))), prepared;
      }
      if FileName(a.path).None? {
        return Err(NotStaged(NoFileName(a.id))), prepared;
      }
      var destination := Destination(a.kind, FileName(a.path).value);
      var ioFails: bool := *;
      if ioFails {
        return Err(IoFailed), prepared;
      }
      var written, checksum := CopyFileWithSha256(files[a.path], cuts, hash);
      var copied := staged.files[destination := written];
      prepared := SetStaging(root, staging, Some(Tree(None, copied)), before, past, prepared);
      if a.checksum.Some? && a.checksum.value != checksum {
        return Err(NotStaged(ChecksumMismatch(a.id))), prepared;
      }
      staged := Staged(copied, staged.records + [RecordOf(a, destination, true).(checksum := Some(checksum))]);
    }
    assert artifacts[..|artifacts|] == artifacts;
    return Ok(staged), prepared;
  }

  /** `prepared` are the states passed through before promotion begins. */
  method WritePortableReplay(root: ReplayRoot, files: map<Path, Bytes>, hash: Hash, runId: string,
                             artifacts: seq<Artifact>, staging: string, f: Faults, cuts: seq<nat>)
    returns (r: Result<Manifest, ExportError>, ghost prepared: seq<Trees>)
    requires staging != FINAL && staging != BACKUP
    modifies root
    // until promotion begins only the staging directory changes
    ensures forall s | s in prepared :: SameApartFrom(staging, s, old(root.trees))
    ensures r.Err? && !r.error.NotPromoted? ==> Preparing(root, staging, old(root.trees), old(root.history), prepared)
    ensures r.Err? && r.error.NotStaged? ==> Stage(files, hash, artifacts) == Err(r.error.error)
    // from then on the run is a promotion of the staged bundle
    ensures r.Ok? || r.error.NotPromoted? ==>
      && Stage(files, hash, artifacts).Ok?
      && var bundle := BundleOf(runId, Stage(files, hash, artifacts).value);
         var course := Promotion(old(root.trees)[staging := bundle], staging, f);
         && root.history == old(root.history) + prepared + course.states
         && root.trees == EndOf(old(root.trees)[staging := bundle], course)
         && (r.Ok? <==> course.ok)
    ensures r.Ok? ==>
      && Stage(files, hash, artifacts).Ok?
      && var bundle := BundleOf(runId, Stage(files, hash, artifacts).value);
         && Some(r.value) == bundle.manifest
         && root.trees == (old(root.trees) - {FINAL, BACKUP, staging})[FINAL := bundle]
  {
    prepared := [];
    var ioFails: bool := *;
    if ioFails {
      return Err(IoFailed), prepared;
    }
    ghost var before, past := root.trees, root.history;
    var staged: Result<Staged, ExportError>;
    staged, prepared := StageArtifacts(root, files, hash, artifacts, staging, cuts);
    if staged.Err? {
      return Err(staged.error), prepared;
    }
    var bundle := BundleOf(runId, staged.value);
    ioFails := *;
    if ioFails {
      return Err(IoFailed), prepared;
    }
    SameThenSet(staging, root.trees, before, bundle);
    prepared := SetStaging(root, staging, Some(bundle), before, past, prepared);
    var promoted := PromotePortableBundle(root, staging, f);
    if !promoted {
      return Err(NotPromoted), prepared;
    }
    SuccessInstalls(before[staging := bundle], staging, f);
    assert before[staging := bundle] - {FINAL, BACKUP, staging} == before - {FINAL, BACKUP, staging};
    return Ok(bundle.manifest.value), prepared;
  }

  lemma SameThenSet(staging: string, s: Trees, t: Trees, tree: Tree)
    requires SameApartFrom(staging, s, t)
    ensures s[staging := tree] == t[staging := tree]
  {
    forall name | name != staging
      ensures name in s <==> name in t
      ensures name in s ==> s[name] == t[name]
    {
      assert name in s <==> name in s - {staging};
      assert name in t <==> name in t - {staging};
      if name in s { assert (s - {staging})[name] == (t - {staging})[name]; }
    }
  }

  /** The first artifact that cannot be staged decides the error. */
  lemma {:induction false} StageFails(files: map<Path, Bytes>, hash: Hash, artifacts: seq<Artifact>, i: nat)
    requires i < |artifacts| && Stage(files, hash, artifacts[..i]).Ok?
    ensures StageOne(files, hash, artifacts[i], Stage(files, hash, artifacts[..i]).value).Err? ==>
      Stage(files, hash, artifacts)
         == Err(StageOne(files, hash, artifacts[i], Stage(files, hash, artifacts[..i]).value).error)
    decreases |artifacts|
  {
    var n := |artifacts| - 1;
    if i < n {
      assert artifacts[..n][..i] == artifacts[..i];
      StageFails(files, hash, artifacts[..n], i);
    }
  }

  /** Staging succeeds exactly if every source is there, has a file name and has the digest that was
      recorded for it, if one was. */
  lemma {:induction false} StageSucceedsExactly(files: map<Path, Bytes>, hash: Hash, artifacts: seq<Artifact>)
    ensures Stage(files, hash, artifacts).Ok? <==> forall a | a in artifacts :: CanBeStaged(files, hash, a)
  {
    if artifacts == [] {
    } else {
      var n := |artifacts| - 1;
      StageSucceedsExactly(files, hash, artifacts[..n]);
      assert artifacts == artifacts[..n] + [artifacts[n]];
      if Stage(files, hash, artifacts[..n]).Ok? {
        StageErrorMeans(files, hash, artifacts[n], Stage(files, hash, artifacts[..n]).value);
      } else {
        var a :| a in artifacts[..n] && !CanBeStaged(files, hash, a);
        assert a in artifacts;
      }
    }
  }

  predicate CanBeStaged(files: map<Path, Bytes>, hash: Hash, a: Artifact) {
    && a.path in files && a.path != [] && a.path[|a.path| - 1] != ".."
    && (a.checksum.Some? ==> a.checksum.value == hash(files[a.path]))
  }

  /** The error names the artifact and its first fault. */
  lemma StageErrorMeans(files: map<Path, Bytes>, hash: Hash, a: Artifact, staged: Staged)
    ensures StageOne(files, hash, a, staged) == Err(MissingSource(a.id)) <==> a.path !in files
    ensures StageOne(files, hash, a, staged) == Err(NoFileName(a.id)) <==>
      a.path in files && (a.path == [] || a.path[|a.path| - 1] == "..")
    ensures StageOne(files, hash, a, staged).Ok? <==> CanBeStaged(files, hash, a)
  {
  }

  // ----- export, then validate

  function DestinationOf(a: Artifact): Path
    requires FileName(a.path).Some?
  {
    Destination(a.kind, FileName(a.path).value)
  }

  /** Both artifacts are copied to the same place in the bundle. */
  predicate Collide(a: Artifact, b: Artifact) {
    FileName(a.path).Some? && FileName(b.path).Some? && DestinationOf(a) == DestinationOf(b)
  }

  /** Collisions are exactly the artifacts of one kind with one file name. */
  lemma CollisionsAreSameKindAndName(a: Artifact, b: Artifact)
    requires FileName(a.path).Some? && FileName(b.path).Some?
    ensures Collide(a, b) <==> a.kind == b.kind && FileName(a.path) == FileName(b.path)
  {
    DestinationIsInjective(a.kind, FileName(a.path).value, b.kind, FileName(b.path).value);
  }

  /** A staged artifact was readable, and its record carries the digest of its source. */
  ghost predicate StagedAs(files: map<Path, Bytes>, hash: Hash, a: Artifact, r: Record) {
    && a.path in files
    && FileName(a.path).Some?
    && r.artifactId == a.id && r.kind == a.kind && r.path == DestinationOf(a) && r.materialized
    && r.checksum == Some(hash(files[a.path])) && r.source == a.source && r.details == a.details
    && (a.checksum.Some? ==> a.checksum == r.checksum)
  }

  /** What is in the bundle: one record an artifact, in order, and at each destination the content
      of the last artifact copied there. */
  lemma {:induction false} StageResult(files: map<Path, Bytes>, hash: Hash, artifacts: seq<Artifact>)
    requires Stage(files, hash, artifacts).Ok?
    ensures var staged := Stage(files, hash, artifacts).value;
      && |staged.records| == |artifacts|
      && (forall i | 0 <= i < |artifacts| :: StagedAs(files, hash, artifacts[i], staged.records[i]))
      && (forall i | 0 <= i < |artifacts| :: HasLastCopy(files, artifacts, staged, i))
  {
    hide StageOne, StagedAs, Collide;
    if artifacts == [] {
    } else {
      var n := |artifacts| - 1;
      var before := artifacts[..n];
      StageResult(files, hash, before);
      var old', new' := Stage(files, hash, before).value, Stage(files, hash, artifacts).value;
      StageOneResult(files, hash, artifacts[n], old');
      forall i | 0 <= i < |artifacts|
        ensures HasLastCopy(files, artifacts, new', i)
      {
        if Collide(artifacts[i], artifacts[n]) {
          assert LastCopy(files, artifacts, new', i, n);
        } else if i < n {
          assert HasLastCopy(files, before, old', i);
          var last :| LastCopy(files, before, old', i, last);
          CollideIsTransitive(artifacts[i], artifacts[last], artifacts[n]);
          assert LastCopy(files, artifacts, new', i, last);
        }
      }
    }
  }

  lemma CollideIsTransitive(a: Artifact, b: Artifact, c: Artifact)
    requires Collide(a, b) && !Collide(a, c) && FileName(c.path).Some?
    ensures DestinationOf(b) != DestinationOf(c)
  {
  }

  lemma StageOneResult(files: map<Path, Bytes>, hash: Hash, a: Artifact, staged: Staged)
    requires StageOne(files, hash, a, staged).Ok?
    ensures a.path in files && FileName(a.path).Some? && Collide(a, a)
    ensures var after := StageOne(files, hash, a, staged).value;
      && |after.records| == |staged.records| + 1 && after.records[..|staged.records|] == staged.records
      && StagedAs(files, hash, a, after.records[|staged.records|])
      && after.files == staged.files[DestinationOf(a) := files[a.path]]
  {
  }

  /** `last` is the last artifact copied to the destination of artifact `i`, and its content is there. */
  ghost predicate LastCopy(files: map<Path, Bytes>, artifacts: seq<Artifact>, staged: Staged, i: int, last: int) {
    && 0 <= i <= last < |artifacts|
    && Collide(artifacts[i], artifacts[last])
    && (forall j | last < j < |artifacts| :: !Collide(artifacts[i], artifacts[j]))
    && artifacts[last].path in files
    && DestinationOf(artifacts[last]) in staged.files
    && staged.files[DestinationOf(artifacts[last])] == files[artifacts[last].path]
  }

  ghost predicate HasLastCopy(files: map<Path, Bytes>, artifacts: seq<Artifact>, staged: Staged, i: int) {
    exists last :: LastCopy(files, artifacts, staged, i, last)
  }

  ghost predicate SameDigest(files: map<Path, Bytes>, hash: Hash, a: Artifact, b: Artifact) {
    a.path in files && b.path in files && hash(files[a.path]) == hash(files[b.path])
  }

  /** How many artifacts derive from an artifact that is not exported with them. */
  ghost function DerivedFromOutside(artifacts: seq<Artifact>, all: seq<Artifact>): nat {
    if artifacts == [] then 0
    else
      var a := artifacts[|artifacts| - 1];
      DerivedFromOutside(artifacts[..|artifacts| - 1], all)
      + if a.source.Some? && (forall b | b in all :: b.id != a.source.value) then 1 else 0
  }

  /** Validating the bundle an export has just installed finds every file; it finds a wrong checksum
      exactly if two artifacts of one kind and file name have contents with different digests (the
      later copy replaces the earlier); and its provenance errors are the artifacts derived from
      something outside the export. */
  lemma ExportThenValidate(store: Store, hash: Hash, runId: string, artifacts: seq<Artifact>)
    requires Stage(store.files, hash, artifacts).Ok?
    requires FINAL in store.trees
    requires store.trees[FINAL] == BundleOf(runId, Stage(store.files, hash, artifacts).value)
    ensures var m := store.trees[FINAL].manifest.value;
      && Count(store, hash, m, m.records, Missing) == 0
      && (Count(store, hash, m, m.records, Mismatched) == 0 <==>
            forall a, b | a in artifacts && b in artifacts && Collide(a, b) :: SameDigest(store.files, hash, a, b))
      && Count(store, hash, m, m.records, Orphaned) == DerivedFromOutside(artifacts, artifacts)
  {
    var files, staged := store.files, Stage(store.files, hash, artifacts).value;
    var m := store.trees[FINAL].manifest.value;
    StageResult(files, hash, artifacts);
    forall i | 0 <= i < |artifacts| ensures Exists(store, FINAL, staged.records[i]) {
      assert HasLastCopy(files, artifacts, staged, i);
      assert StagedAs(files, hash, artifacts[i], staged.records[i]);
    }
    MismatchesAreCollisions(store, hash, runId, artifacts);
    OrphansAreDerived(store, hash, m, artifacts, |artifacts|);
    assert artifacts[..|artifacts|] == artifacts && m.records[..|artifacts|] == m.records;
  }

  /** Artifacts that differ pairwise in kind or file name export to a bundle without a wrong file. */
  lemma DistinctNamesValidate(store: Store, hash: Hash, runId: string, artifacts: seq<Artifact>)
    requires Stage(store.files, hash, artifacts).Ok?
    requires FINAL in store.trees
    requires store.trees[FINAL] == BundleOf(runId, Stage(store.files, hash, artifacts).value)
    requires forall i, j | 0 <= i < j < |artifacts| ::
      artifacts[i].kind != artifacts[j].kind || FileName(artifacts[i].path) != FileName(artifacts[j].path)
    ensures var m := store.trees[FINAL].manifest.value;
      && Count(store, hash, m, m.records, Missing) == 0 && Count(store, hash, m, m.records, Mismatched) == 0
      && Count(store, hash, m, m.records, Orphaned) == DerivedFromOutside(artifacts, artifacts)
  {
    hide Stage, Count, DerivedFromOutside, Collide;
    ExportThenValidate(store, hash, runId, artifacts);
    StageResult(store.files, hash, artifacts);
    forall a, b | a in artifacts && b in artifacts && Collide(a, b) ensures SameDigest(store.files, hash, a, b) {
      var i :| 0 <= i < |artifacts| && artifacts[i] == a;
      var j :| 0 <= j < |artifacts| && artifacts[j] == b;
      assert StagedAs(store.files, hash, a, Stage(store.files, hash, artifacts).value.records[i]);
      assert StagedAs(store.files, hash, b, Stage(store.files, hash, artifacts).value.records[j]);
      CollisionsAreSameKindAndName(a, b);
    }
  }

  /** A record is mismatched exactly if the last copy at its destination has another digest. */
  lemma MismatchAt(store: Store, hash: Hash, m: Manifest, artifacts: seq<Artifact>, staged: Staged, i: int, last: int)
    requires m.root in store.trees && store.trees[m.root].files == staged.files
    requires LastCopy(store.files, artifacts, staged, i, last)
    requires i < |m.records| && StagedAs(store.files, hash, artifacts[i], m.records[i])
    ensures Has(store, hash, m, m.records[i], Mismatched) <==>
      !SameDigest(store.files, hash, artifacts[i], artifacts[last])
  {
  }

  /** If every last copy agrees with what it replaced, all colliding artifacts agree. */
  lemma CollidingAgree(files: map<Path, Bytes>, hash: Hash, artifacts: seq<Artifact>, staged: Staged, i: int, j: int)
    requires 0 <= i < |artifacts| && 0 <= j < |artifacts| && Collide(artifacts[i], artifacts[j])
    requires HasLastCopy(files, artifacts, staged, i) && HasLastCopy(files, artifacts, staged, j)
    requires forall k, last | LastCopy(files, artifacts, staged, k, last) ::
      SameDigest(files, hash, artifacts[k], artifacts[last])
    ensures SameDigest(files, hash, artifacts[i], artifacts[j])
  {
  }

  lemma MismatchesAreCollisions(store: Store, hash: Hash, runId: string, artifacts: seq<Artifact>)
    requires Stage(store.files, hash, artifacts).Ok?
    requires FINAL in store.trees
    requires store.trees[FINAL] == BundleOf(runId, Stage(store.files, hash, artifacts).value)
    ensures var m := store.trees[FINAL].manifest.value;
      (forall r | r in m.records :: !Has(store, hash, m, r, Mismatched)) <==>
      (forall a, b | a in artifacts && b in artifacts && Collide(a, b) :: SameDigest(store.files, hash, a, b))
  {
    var files, staged := store.files, Stage(store.files, hash, artifacts).value;
    var m := store.trees[FINAL].manifest.value;
    StageResult(files, hash, artifacts);
    if forall r | r in m.records :: !Has(store, hash, m, r, Mismatched) {
      forall k, last | LastCopy(files, artifacts, staged, k, last)
        ensures SameDigest(files, hash, artifacts[k], artifacts[last])
      {
        MismatchAt(store, hash, m, artifacts, staged, k, last);
        assert m.records[k] in m.records;
      }
      forall i, j | 0 <= i < |artifacts| && 0 <= j < |artifacts| && Collide(artifacts[i], artifacts[j])
        ensures SameDigest(files, hash, artifacts[i], artifacts[j])
      {
        assert HasLastCopy(files, artifacts, staged, i) && HasLastCopy(files, artifacts, staged, j);
        CollidingAgree(files, hash, artifacts, staged, i, j);
      }
    } else {
      var i :| 0 <= i < |m.records| && Has(store, hash, m, m.records[i], Mismatched);
      assert HasLastCopy(files, artifacts, staged, i);
      var last :| LastCopy(files, artifacts, staged, i, last);
      MismatchAt(store, hash, m, artifacts, staged, i, last);
      assert artifacts[i] in artifacts && artifacts[last] in artifacts;
    }
  }

  lemma {:induction false} OrphansAreDerived(store: Store, hash: Hash, m: Manifest, artifacts: seq<Artifact>, n: nat)
    requires |m.records| == |artifacts| && n <= |artifacts|
    requires forall i | 0 <= i < |artifacts| ::
      && Exists(store, m.root, m.records[i])
      && m.records[i].artifactId == artifacts[i].id && m.records[i].source == artifacts[i].source
    ensures Count(store, hash, m, m.records[..n], Orphaned) == DerivedFromOutside(artifacts[..n], artifacts)
  {
    if n == 0 {
    } else {
      OrphansAreDerived(store, hash, m, artifacts, n - 1);
      OrphanAt(store, hash, m, artifacts, n - 1);
      hide Has, Exists;
      assert m.records[..n][..n - 1] == m.records[..n - 1] && artifacts[..n][..n - 1] == artifacts[..n - 1];
    }
  }

  lemma OrphanAt(store: Store, hash: Hash, m: Manifest, artifacts: seq<Artifact>, i: nat)
    requires |m.records| == |artifacts| && i < |artifacts| && Exists(store, m.root, m.records[i])
    requires forall i | 0 <= i < |artifacts| ::
      m.records[i].artifactId == artifacts[i].id && m.records[i].source == artifacts[i].source
    ensures Has(store, hash, m, m.records[i], Orphaned) <==>
      artifacts[i].source.Some? && forall b | b in artifacts :: b.id != artifacts[i].source.value
  {
  }
}
