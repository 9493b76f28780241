/** Portable replay bundles: staging the artifacts, writing the manifest and validating it
    (crates/pengu-mesh-core/src/lib.rs). SHA-256 is an arbitrary function from contents to digests;
    a manifest that is written and read back is the same manifest. */
module ReplayBundles {
  import opened Artifacts
  import opened Common
  import opened ByteStreams

  type Path = seq<string>

  datatype Artifact = Artifact(
    id: string, kind: ArtifactKind, path: Path, checksum: Option<string>, source: Option<string>, details: string)

  datatype Record = Record(
    artifactId: string, kind: ArtifactKind, path: Path, materialized: bool, checksum: Option<string>,
    source: Option<string>, details: string)

  datatype Manifest = Manifest(runId: string, root: string, records: seq<Record>)

  /** A bundle directory. */
  datatype Tree = Tree(manifest: Option<Manifest>, files: map<Path, Bytes>)

  /** The directories below a run's replay root, by name. */
  type Trees = map<string, Tree>

  const FINAL := "portable"
  const BACKUP := "portable.previous"

  function KindDir(kind: ArtifactKind): string {
    match kind
    case Screenshot => "screenshots"
    case Pdf => "pdfs"
    case Snapshot => "snapshots"
    case Text => "text"
    case Trace => "traces"
    case Recording => "recordings"
  }

  /** `Path::file_name`: the last component, unless the path is empty or ends in `..`. */
  function FileName(path: Path): Option<string> {
    if path == [] || path[|path| - 1] == ".." then None else Some(path[|path| - 1])
  }

  /** Of a path with components it is the last one, and `..` is no name. */
  lemma FileNameMeans(path: Path, last: string)
    ensures FileName([]) == None
    ensures FileName(path + [last]) == if last == ".." then None else Some(last)
  {
  }

  function Destination(kind: ArtifactKind, name: string): Path {
    ["artifacts", KindDir(kind), name]
  }

  lemma DestinationIsInjective(k: ArtifactKind, m: string, l: ArtifactKind, n: string)
    ensures Destination(k, m) == Destination(l, n) <==> k == l && m == n
  {
  }

  function RecordOf(a: Artifact, path: Path, materialized: bool): Record {
    Record(a.id, a.kind, path, materialized, a.checksum, a.source, a.details)
  }

  // ----- staging

  datatype StageError = MissingSource(id: string) | NoFileName(id: string) | ChecksumMismatch(id: string)

  datatype Staged = Staged(files: map<Path, Bytes>, records: seq<Record>)

  /** What staging all artifacts in order comes to when no I/O operation fails. */
  function Stage(files: map<Path, Bytes>, hash: Hash, artifacts: seq<Artifact>): Result<Staged, StageError> {
    if artifacts == [] then Ok(Staged(map[], []))
    else
      var n := |artifacts| - 1;
      match Stage(files, hash, artifacts[..n])
      case Err(e) => Err(e)
      case Ok(staged) => StageOne(files, hash, artifacts[n], staged)
  }

  function StageOne(files: map<Path, Bytes>, hash: Hash, a: Artifact, staged: Staged): Result<Staged, StageError> {
    if a.path !in files then Err(MissingSource(a.id))
    else
      match FileName(a.path)
      case None => Err(NoFileName(a.id))
      case Some(name) =>
        var content, destination := files[a.path], Destination(a.kind, name);
        if a.checksum.Some? && a.checksum.value != hash(content) then Err(ChecksumMismatch(a.id))
        else Ok(Staged(
          staged.files[destination := content],
          staged.records + [RecordOf(a, destination, true).(checksum := Some(hash(content)))]))
  }

  /** Copying in reads of any size hashes and writes the whole source. */
  method CopyFileWithSha256(content: Bytes, cuts: seq<nat>, hash: Hash) returns (written: Bytes, checksum: string)
    ensures written == content && checksum == hash(content)
  {
    var reader := new Reader(content, cuts);
    var hashed: Bytes := [];
    written := [];
    while true
      invariant written + reader.rest == content && hashed == written
      decreases |reader.rest|
    {
      var buffer := reader.Read(64 * 1024);
      if buffer == [] {
        break;
      }
      hashed := hashed + buffer;
      written := written + buffer;
    }
    checksum := hash(hashed);
  }

  // ----- validation

  /** Everything on disk: loose files, among them the artifact sources, and the bundle directories. */
  datatype Store = Store(files: map<Path, Bytes>, trees: Trees)

  predicate Exists(store: Store, root: string, r: Record) {
    if r.materialized then root in store.trees && r.path in store.trees[root].files else r.path in store.files
  }

  function Content(store: Store, root: string, r: Record): Bytes
    requires Exists(store, root, r)
  {
    if r.materialized then store.trees[root].files[r.path] else store.files[r.path]
  }

  datatype Defect = Missing | Mismatched | Orphaned

  /** What is wrong with a record. A missing file hides the other two defects. */
  ghost predicate Has(store: Store, hash: Hash, m: Manifest, r: Record, defect: Defect) {
    match defect
    case Missing => !Exists(store, m.root, r)
    case Mismatched =>
      Exists(store, m.root, r) && r.checksum.Some? && hash(Content(store, m.root, r)) != r.checksum.value
    case Orphaned =>
      Exists(store, m.root, r) && r.source.Some? && forall s | s in m.records :: s.artifactId != r.source.value
  }

  ghost function Count(store: Store, hash: Hash, m: Manifest, records: seq<Record>, defect: Defect): (n: nat)
    ensures n == 0 <==> forall r :: r in records ==> !Has(store, hash, m, r, defect)
  {
    if records == [] then 0
    else
      var n := |records| - 1;
      assert records == records[..n] + [records[n]];
      Count(store, hash, m, records[..n], defect) + if Has(store, hash, m, records[n], defect) then 1 else 0
  }

  /** The file is where the record says, below the bundle's root or anywhere; its digest is the recorded
      one, if one is recorded; and the artifact it derives from, if any, is in the manifest. */
  ghost predicate IsSound(store: Store, hash: Hash, m: Manifest, r: Record) {
    && (if r.materialized
        then
          && m.root in store.trees && r.path in store.trees[m.root].files
          && (r.checksum.None? || r.checksum == Some(hash(store.trees[m.root].files[r.path])))
        else
          r.path in store.files && (r.checksum.None? || r.checksum == Some(hash(store.files[r.path]))))
    && (r.source.Some? ==> exists s :: s in m.records && s.artifactId == r.source.value)
  }

  lemma SoundMeans(store: Store, hash: Hash, m: Manifest, r: Record)
    ensures IsSound(store, hash, m, r) <==> forall d :: !Has(store, hash, m, r, d)
  {
    if IsSound(store, hash, m, r) {
    } else {
      assert Has(store, hash, m, r, Missing) || Has(store, hash, m, r, Mismatched) || Has(store, hash, m, r, Orphaned);
    }
  }

  datatype Report = Report(artifacts: nat, missing: nat, mismatches: nat, provenance: nat, ok: bool)

  method Validate(store: Store, hash: Hash, m: Manifest) returns (report: Report)
    ensures report.artifacts == |m.records|
    ensures report.missing == Count(store, hash, m, m.records, Missing)
    ensures report.mismatches == Count(store, hash, m, m.records, Mismatched)
    ensures report.provenance == Count(store, hash, m, m.records, Orphaned)
    ensures report.ok <==> forall r, d :: r in m.records ==> !Has(store, hash, m, r, d)
    ensures report.ok <==> forall r :: r in m.records ==> IsSound(store, hash, m, r)
  {
    hide Has, IsSound;
    var ids := set r | r in m.records :: r.artifactId;
    var missing, mismatches, provenance := 0, 0, 0;
    for i := 0 to |m.records|
      invariant missing == Count(store, hash, m, m.records[..i], Missing)
      invariant mismatches == Count(store, hash, m, m.records[..i], Mismatched)
      invariant provenance == Count(store, hash, m, m.records[..i], Orphaned)
    {
      var r := m.records[i];
      CountNext(store, hash, m, i);
      Defects(store, hash, m, r);
      if !Exists(store, m.root, r) {
        missing := missing + 1;
        continue;
      }
      if r.checksum.Some? {
        var actual := hash(Content(store, m.root, r));
        if actual != r.checksum.value {
          mismatches := mismatches + 1;
        }
      }
      if r.source.Some? && r.source.value !in ids {
        provenance := provenance + 1;
      }
    }
    assert m.records[..|m.records|] == m.records;
    report := Report(|m.records|, missing, mismatches, provenance,
                     missing == 0 && mismatches == 0 && provenance == 0);
    forall r, d | report.ok && r in m.records ensures !Has(store, hash, m, r, d) {
      match d
      case Missing =>
      case Mismatched =>
      case Orphaned =>
    }
    forall r ensures IsSound(store, hash, m, r) <==> forall d :: !Has(store, hash, m, r, d) {
      SoundMeans(store, hash, m, r);
    }
  }

  lemma CountNext(store: Store, hash: Hash, m: Manifest, i: nat)
    requires i < |m.records|
    ensures forall d :: Count(store, hash, m, m.records[..i + 1], d)
                     == Count(store, hash, m, m.records[..i], d) + if Has(store, hash, m, m.records[i], d) then 1 else 0
  {
    hide Has;
    assert m.records[..i + 1][..i] == m.records[..i];
  }

  /** The three defects as the loop tests them. */
  lemma Defects(store: Store, hash: Hash, m: Manifest, r: Record)
    ensures Has(store, hash, m, r, Missing) <==> !Exists(store, m.root, r)
    ensures Has(store, hash, m, r, Mismatched) <==>
      Exists(store, m.root, r) && r.checksum.Some? && hash(Content(store, m.root, r)) != r.checksum.value
    ensures Has(store, hash, m, r, Orphaned) <==>
      Exists(store, m.root, r) && r.source.Some? && r.source.value !in set s | s in m.records :: s.artifactId
  {
  }
}
