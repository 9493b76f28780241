/** Streaming an artifact to disk in chunks while hashing it (crates/pengu-mesh-artifacts/src/lib.rs).
    Every I/O operation may fail, and buffered bytes reach the disk whenever they happen to. */
module ChunkedWrites {
  import opened Artifacts
  import opened Common
  import Base64
  import opened ByteStreams

  datatype WriteError = ZeroChunkSize | CreateFailed | ExceedsMaximum | ShortAccept | IoFailed | StatFailed
    | InvalidText

  datatype Config = Config(chunkSize: nat, maxTotal: nat)

  const DEFAULT_CHUNK: nat := 64 * 1024
  const DEFAULT_MAXIMUM: nat := 100 * 1024 * 1024

  datatype WriteResult = WriteResult(path: string, totalBytes: nat, chunksWritten: nat, sha256: string)

  class Disk {
    var files: map<string, Bytes>
  }

  /** Nothing but the file at `path` differs. */
  ghost predicate OnlyFile(path: string, before: map<string, Bytes>, after: map<string, Bytes>) {
    before - {path} == after - {path}
  }

  class ChunkedWriter {
    const path: string
    const config: Config
    const disk: Disk
    var buffered: Bytes
    var hashed: Bytes
    var totalWritten: nat
    var chunksWritten: nat

    /** The bytes on disk and in the buffer are those hashed so far. */
    ghost predicate Valid()
      reads this, disk
    {
      && config.chunkSize > 0
      && path in disk.files && disk.files[path] + buffered == hashed
      && totalWritten == |hashed| <= config.maxTotal
      && chunksWritten <= totalWritten <= chunksWritten * config.chunkSize
    }

    constructor (disk: Disk, path: string, config: Config)
      requires config.chunkSize > 0
      modifies disk
      ensures Valid() && hashed == [] && fresh(this)
      ensures this.disk == disk && this.path == path && this.config == config
      ensures disk.files == old(disk.files)[path := []]
    {
      this.disk, this.path, this.config := disk, path, config;
      buffered, hashed, totalWritten, chunksWritten := [], [], 0, 0;
      new;
      disk.files := disk.files[path := []];
    }

    method WriteChunk(data: Bytes) returns (r: Result<nat, WriteError>)
      requires Valid()
      modifies this, disk
      ensures OnlyFile(path, old(disk.files), disk.files)
      ensures r.Ok? ==> Valid() && r.value == Min(|data|, config.chunkSize) && hashed == old(hashed) + data[..r.value]
      ensures r.Err? ==> r.error.IoFailed? || r.error.ExceedsMaximum?
      ensures r == Err(ExceedsMaximum) ==> |old(hashed)| + Min(|data|, config.chunkSize) > config.maxTotal
    {
      if data == [] {
        return Ok(0);
      }
      var len := Min(|data|, config.chunkSize);
      if totalWritten + len > config.maxTotal {
        return Err(ExceedsMaximum);
      }
      var failed := WriteAll(data[..len]);
      if failed {
        return Err(IoFailed);
      }
      hashed := hashed + data[..len];
      totalWritten := totalWritten + len;
      chunksWritten := chunksWritten + 1;
      return Ok(len);
    }

    /** Some part of the buffer goes to disk; a failed write may have written some of it, too. */
    method WriteAll(data: Bytes) returns (failed: bool)
      requires path in disk.files
      modifies this`buffered, disk
      ensures path in disk.files
      ensures disk.files[path] + buffered == old(disk.files)[path] + old(buffered) + data
      ensures OnlyFile(path, old(disk.files), disk.files)
    {
      buffered := buffered + data;
      var sent :| 0 <= sent <= |buffered|;
      disk.files := disk.files[path := disk.files[path] + buffered[..sent]];
      buffered := buffered[sent..];
      failed := *;
    }

    method Finish(hash: Hash) returns (r: Result<WriteResult, WriteError>)
      requires Valid()
      modifies this`buffered, disk
      ensures OnlyFile(path, old(disk.files), disk.files)
      ensures r.Ok? ==> path in disk.files && disk.files[path] == hashed
      ensures r.Ok? ==> r.value == WriteResult(path, |hashed|, chunksWritten, hash(hashed))
      ensures r.Err? ==> r.error.IoFailed?
    {
      var flushFails: bool := *;
      if flushFails {
        return Err(IoFailed);
      }
      disk.files := disk.files[path := disk.files[path] + buffered];
      buffered := [];
      return Ok(WriteResult(path, totalWritten, chunksWritten, hash(hashed)));
    }
  }

  method CleanupPartialFile(disk: Disk, path: string, deletable: bool)
    modifies disk
    ensures OnlyFile(path, old(disk.files), disk.files)
    ensures deletable ==> path !in disk.files
  {
    if deletable {
      disk.files := disk.files - {path};
    }
  }

  /** All or nothing. Whatever the sizes of the reads and whatever fails, success means the file is
      the whole input with its own length and digest; a failure after the file was created leaves
      no file, provided it can be deleted; a failure before leaves the disk as it was. An input over
      the maximum never succeeds, and only such an input is refused for its size. A `broken` input
      ends with a read error. */
  method WriteReaderChunked(disk: Disk, path: string, reader: Reader, broken: bool, config: Config, hash: Hash,
                            deletable: bool)
    returns (r: Result<WriteResult, WriteError>)
    modifies disk, reader
    ensures OnlyFile(path, old(disk.files), disk.files)
    ensures r.Ok? ==>
      && !broken && path in disk.files && disk.files[path] == old(reader.rest)
      && r.value.path == path
      && r.value.totalBytes == |old(reader.rest)| <= config.maxTotal
      && r.value.sha256 == hash(old(reader.rest))
      && r.value.chunksWritten <= r.value.totalBytes <= r.value.chunksWritten * config.chunkSize
    ensures r.Err? ==> match r.error
      case ZeroChunkSize => config.chunkSize == 0 && disk.files == old(disk.files)
      case CreateFailed => disk.files == old(disk.files)
      case ExceedsMaximum => |old(reader.rest)| > config.maxTotal && (deletable ==> path !in disk.files)
      case IoFailed => deletable ==> path !in disk.files
      case _ => false
  {
    if config.chunkSize == 0 {
      return Err(ZeroChunkSize);
    }
    var createFails: bool := *;
    if createFails {
      return Err(CreateFailed);
    }
    var writer := new ChunkedWriter(disk, path, config);
    r := CopyChunks(writer, reader, broken, hash);
    if r.Err? {
      CleanupPartialFile(disk, path, deletable);
    }
  }

  method CopyChunks(writer: ChunkedWriter, reader: Reader, broken: bool, hash: Hash)
    returns (r: Result<WriteResult, WriteError>)
    requires writer.Valid() && writer.hashed == [] && writer.config.chunkSize > 0
    modifies writer, writer.disk, reader
    ensures OnlyFile(writer.path, old(writer.disk.files), writer.disk.files)
    ensures r.Ok? ==>
      && !broken && writer.path in writer.disk.files && writer.disk.files[writer.path] == old(reader.rest)
      && |old(reader.rest)| <= writer.config.maxTotal
      && r.value.path == writer.path
      && r.value.totalBytes == |old(reader.rest)| && r.value.sha256 == hash(old(reader.rest))
      && r.value.chunksWritten <= r.value.totalBytes <= r.value.chunksWritten * writer.config.chunkSize
    ensures r.Err? ==> r.error.IoFailed? || (r.error.ExceedsMaximum? && |old(reader.rest)| > writer.config.maxTotal)
  {
    while true
      invariant writer.Valid()
      invariant writer.hashed + reader.rest == old(reader.rest)
      invariant OnlyFile(writer.path, old(writer.disk.files), writer.disk.files)
      decreases |reader.rest|
    {
      var readFails: bool := *;
      if readFails {
        return Err(IoFailed);
      }
      var buffer := reader.Read(writer.config.chunkSize);
      if buffer == [] {
        if broken {
          return Err(IoFailed);
        }
        break;
      }
      var written := writer.WriteChunk(buffer);
      if written.Err? {
        return Err(written.error);
      }
      // a read never exceeds the chunk size, so a chunk is always accepted whole
      if written.value != |buffer| {
        assert false;
      }
    }
    r := writer.Finish(hash);
  }

  // ----- the artifact store's two ways of writing

  predicate ShouldStream(kind: ArtifactKind, length: nat) {
    (kind.Screenshot? || kind.Pdf?) && length > DEFAULT_CHUNK
  }

  function ConfigFor(length: nat): Config {
    Config(DEFAULT_CHUNK, Max(length, DEFAULT_MAXIMUM))
  }

  datatype Handle = Handle(path: string, bytes: nat, checksum: string)

  /** Creating the directory may fail, before any file is touched. */
  method OutputPath() returns (failed: bool) {
    failed := *;
  }

  /** `fs::metadata`, which may fail although the file is there. */
  method Stat(disk: Disk, path: string) returns (length: Option<nat>)
    requires path in disk.files
    ensures length.Some? ==> length.value == |disk.files[path]|
  {
    var failed: bool := *;
    length := if failed then None else Some(|disk.files[path]|);
  }

  /** Streamed or written directly, the payload ends up in the file, with its length and digest in
      the handle, and is never refused for its size. Only the streamed way cleans up after itself,
      and not when the file is written and only its length cannot be had. */
  method WritePayload(disk: Disk, path: string, kind: ArtifactKind, payload: Bytes, cuts: seq<nat>, hash: Hash,
                      deletable: bool)
    returns (r: Result<Handle, WriteError>)
    modifies disk
    ensures OnlyFile(path, old(disk.files), disk.files)
    ensures r.Ok? ==> path in disk.files && disk.files[path] == payload
    ensures r.Ok? ==> r.value == Handle(path, |payload|, hash(payload))
    ensures r.Err? ==> match r.error
      case CreateFailed => disk.files == old(disk.files)
      case IoFailed =>
        kind in {Screenshot, Pdf} && |payload| > 65536 && deletable ==> path !in disk.files
      case StatFailed => path in disk.files && disk.files[path] == payload
      case _ => false
  {
    var unusable := OutputPath();
    if unusable {
      return Err(CreateFailed);
    }
    var checksum: string;
    if ShouldStream(kind, |payload|) {
      var reader := new Reader(payload, cuts);
      var result := WriteReaderChunked(disk, path, reader, false, ConfigFor(|payload|), hash, deletable);
      if result.Err? {
        return Err(result.error);
      }
      checksum := result.value.sha256;
    } else {
      var written := WriteDirectly(disk, path, payload);
      if !written {
        return Err(IoFailed);
      }
      checksum := hash(payload);
    }
    var length := Stat(disk, path);
    if length.None? {
      return Err(StatFailed);
    }
    return Ok(Handle(path, length.value, checksum));
  }

  /** `fs::write`: when it fails, the file may be as it was or hold a part of the payload. */
  method WriteDirectly(disk: Disk, path: string, payload: Bytes) returns (ok: bool)
    modifies disk
    ensures OnlyFile(path, old(disk.files), disk.files)
    ensures ok ==> path in disk.files && disk.files[path] == payload
  {
    ok := *;
    var touched: bool := *;
    if ok || touched {
      var sent :| 0 <= sent <= |payload|;
      disk.files := disk.files[path := if ok then payload else payload[..sent]];
    }
  }

  // ----- base64 captures

  /** The length estimate made before decoding base64 text. */
  function EstimatedDecodedLength(encoded: nat): nat {
    (encoded + 3) / 4 * 3
  }

  /** The estimate is never short and at most two bytes over, so streamed decoding never runs into
      the maximum. */
  lemma EstimateIsEnough(text: Bytes)
    requires Base64.Decode(text).Some?
    ensures var decoded := |Base64.Decode(text).value|;
      && decoded <= EstimatedDecodedLength(|text|) <= decoded + 2
      && decoded <= ConfigFor(EstimatedDecodedLength(|text|)).maxTotal
  {
    Base64.DecodedLength(text);
  }

  /** Whether it is decoded while streaming or first, text that is valid base64 ends up decoded in
      the file, and any other text is an error that leaves no new file. Nothing is refused for its size. */
  method WriteBase64(disk: Disk, path: string, kind: ArtifactKind, text: Bytes, cuts: seq<nat>, hash: Hash,
                     deletable: bool)
    returns (r: Result<Handle, WriteError>)
    modifies disk
    ensures OnlyFile(path, old(disk.files), disk.files)
    ensures r.Ok? ==>
      && Base64.Decode(text).Some?
      && var content := Base64.Decode(text).value;
         && path in disk.files && disk.files[path] == content
         && r.value == Handle(path, |content|, hash(content))
    ensures r.Err? ==> match r.error
      case CreateFailed => disk.files == old(disk.files)
      case IoFailed =>
        kind in {Screenshot, Pdf} && (|text| + 3) / 4 * 3 > 65536 && deletable ==> path !in disk.files
      case StatFailed =>
        Base64.Decode(text).Some? && path in disk.files && disk.files[path] == Base64.Decode(text).value
      case InvalidText => Base64.Decode(text).None? && disk.files == old(disk.files)
      case _ => false
    ensures Base64.Decode(text).None? && r == Err(IoFailed) ==>
      kind in {Screenshot, Pdf} && (|text| + 3) / 4 * 3 > 65536
  {
    var decoded := Base64.Decode(text);
    if ShouldStream(kind, EstimatedDecodedLength(|text|)) {
      r := StreamBase64(disk, path, text, cuts, hash, deletable);
      return;
    }
    if decoded.None? {
      return Err(InvalidText);
    }
    r := WritePayload(disk, path, kind, decoded.value, cuts, hash, deletable);
  }

  /** The decoder delivers the decoded bytes; of invalid text it delivers at most three bytes for
      every four before it fails. */
  method StreamBase64(disk: Disk, path: string, text: Bytes, cuts: seq<nat>, hash: Hash, deletable: bool)
    returns (r: Result<Handle, WriteError>)
    modifies disk
    ensures OnlyFile(path, old(disk.files), disk.files)
    ensures r.Ok? ==>
      && Base64.Decode(text).Some?
      && var content := Base64.Decode(text).value;
         && path in disk.files && disk.files[path] == content
         && r.value == Handle(path, |content|, hash(content))
    ensures r.Err? ==> match r.error
      case CreateFailed => disk.files == old(disk.files)
      case IoFailed => deletable ==> path !in disk.files
      case StatFailed =>
        Base64.Decode(text).Some? && path in disk.files && disk.files[path] == Base64.Decode(text).value
      case _ => false
  {
    var unusable := OutputPath();
    if unusable {
      return Err(CreateFailed);
    }
    var decoded, estimate := Base64.Decode(text), EstimatedDecodedLength(|text|);
    var content: Bytes := [];
    if decoded.Some? {
      EstimateIsEnough(text);
      content := decoded.value;
    } else {
      ghost var none: Bytes := [];
      assert |none| <= estimate;
      content :| |content| <= estimate;
    }
    var reader := new Reader(content, cuts);
    var result := WriteReaderChunked(disk, path, reader, decoded.None?, ConfigFor(estimate), hash, deletable);
    if result.Err? {
      return Err(result.error);
    }
    var length := Stat(disk, path);
    if length.None? {
      return Err(StatFailed);
    }
    return Ok(Handle(path, length.value, result.value.sha256));
  }
}
