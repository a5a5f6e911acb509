/**
 * The two output filters of the zip plugin (src/js/index.js): the gate
 * `SHOULD_PREPARE_OUTPUT`, the content identifier `generateFileIdentifier`
 * and the `PREPARE_OUTPUT` filter with its module-level cache `zipped`.
 *
 * The platform SHA-256 digest, the JSZip archiver and the host's `isFile`
 * test are external code; each is a function-valued constant
 * of the plugin, fixed when the plugin is created.
 */
module ZipPlugin {
  import opened Wrappers
  import opened Hex

  /** The media type of every artifact the plugin produces, and the one it never re-zips. */
  const ZIP_MEDIA_TYPE: string := "application/zip"

  /** The item metadata key that receives the artifact's size. */
  const FILE_SIZE_KEY: string := "fileSize"

  /** A SHA-256 digest: 32 bytes. */
  type Digest = d: seq<byte> | |d| == 32 witness seq(32, _ => 0 as byte)

  /** `crypto.subtle.digest('SHA-256', ...)`, a deterministic function of the bytes. */
  type Sha256 = seq<byte> -> Digest

  /** What JSZip throws when it cannot build or serialise the archive. */
  datatype ZipError = ZipError(cause: string)

  /** JSZip with a single root entry of the given name and bytes, serialised with DEFLATE level 9. */
  type Archiver = (string, seq<byte>) -> Result<seq<byte>, ZipError>

  /** A `File`/`Blob`: its name, its declared media type and its bytes. */
  datatype Blob = Blob(name: string, mediaType: string, content: seq<byte>) {
    /** The `size` property: the number of bytes. */
    function Size(): (n: nat)
      ensures n == 0 <==> content == []
    {
      |content|
    }
  }

  /**
   * The `SHOULD_PREPARE_OUTPUT` filter: with `allowFileZip` the value of the
   * `GET_ALLOW_FILE_ZIP` query, it decides whether the item's file goes
   * through `PREPARE_OUTPUT` at all.
   */
  function ShouldPrepareOutput(allowFileZip: bool, file: Blob): (prepare: bool)
    ensures prepare <==> allowFileZip && file.mediaType != ZIP_MEDIA_TYPE
    ensures !allowFileZip ==> !prepare
    ensures file.mediaType == ZIP_MEDIA_TYPE ==> !prepare
  {
    if allowFileZip && file.mediaType == ZIP_MEDIA_TYPE then false else allowFileZip
  }

  /** `generateFileIdentifier`: the SHA-256 digest of the bytes, rendered as lowercase hexadecimal. */
  function FileIdentifier(sha256: Sha256, content: seq<byte>): (id: string)
    ensures |id| == 64 && IsLowerHex(id)
  {
    ToHexIsLowerHex(sha256(content));
    ToHex(sha256(content))
  }

  /** Two contents get the same identifier exactly when their digests are equal. */
  lemma FileIdentifierInjective(sha256: Sha256, a: seq<byte>, b: seq<byte>)
    ensures FileIdentifier(sha256, a) == FileIdentifier(sha256, b) <==> sha256(a) == sha256(b)
  {
    ToHexInjective(sha256(a), sha256(b));
  }

  /** The host's item: the file it holds and the metadata the plugin writes into. */
  class Item {
    const file: Blob
    var metadata: map<string, int>

    constructor (file: Blob)
      ensures this.file == file && metadata == map[]
    {
      this.file := file;
      metadata := map[];
    }

    /** `item.setMetadata(key, value)`. */
    method SetMetadata(key: string, value: int)
      modifies this
      ensures metadata == old(metadata)[key := value]
    {
      metadata := metadata[key := value];
    }
  }

  /** What `PREPARE_OUTPUT` resolves with: a zip artifact, or the host item itself. */
  datatype Output = Archive(file: Blob) | PassedThrough(item: Item)

  /** The settled promise of `PREPARE_OUTPUT`. */
  datatype Settled = Resolved(output: Output) | Rejected(error: ZipError)

  /** The artifact the plugin builds from a source file and the archive bytes. */
  function Artifact(source: Blob, archiveBytes: seq<byte>): (a: Blob)
    ensures a.mediaType == ZIP_MEDIA_TYPE && a.content == archiveBytes && a.Size() == |archiveBytes|
    ensures |a.name| == |source.name| + 4
    ensures a.name[..|source.name|] == source.name && a.name[|source.name|..] == ".zip"
  {
    Blob(source.name + ".zip", ZIP_MEDIA_TYPE, archiveBytes)
  }

  /** The plugin's module state: the cache `zipped` from content identifier to artifact. */
  class Plugin {
    const sha256: Sha256
    const archive: Archiver
    const isFile: Blob -> bool

    var zipped: map<string, Blob>
    /** For every cached identifier, the file whose compression produced the entry. */
    ghost var origin: map<string, Blob>
    /** How many times the archiver has been run. */
    ghost var compressions: nat

    /** `artifact` is the cache entry compressing `source` would store under `id`. */
    ghost predicate IsEntry(id: string, source: Blob, artifact: Blob) {
      && id == FileIdentifier(sha256, source.content)
      && archive(source.name, source.content) == Success(artifact.content)
      && artifact == Artifact(source, artifact.content)
    }

    ghost predicate Valid()
      reads this
    {
      && zipped.Keys == origin.Keys
      && forall id :: id in zipped ==> IsEntry(id, origin[id], zipped[id])
    }

    constructor (sha256: Sha256, archive: Archiver, isFile: Blob -> bool)
      ensures Valid()
      ensures this.sha256 == sha256 && this.archive == archive && this.isFile == isFile
      ensures zipped == map[] && compressions == 0
    {
      this.sha256 := sha256;
      this.archive := archive;
      this.isFile := isFile;
      zipped := map[];
      origin := map[];
      compressions := 0;
    }

    /** Every cache key is a 64-character lowercase hexadecimal identifier, and every artifact a zip named after its source. */
    lemma CacheShape(id: string)
      requires Valid() && id in zipped
      ensures |id| == 64 && IsLowerHex(id)
      ensures zipped[id].mediaType == ZIP_MEDIA_TYPE
      ensures exists name :: zipped[id].name == name + ".zip"
    {
      assert zipped[id].name == origin[id].name + ".zip";
    }

    /**
     * The `PREPARE_OUTPUT` filter. The identifier is computed and the cache
     * consulted before the `isFile` test, so a non-file whose bytes were
     * zipped before also receives the cached artifact.
     */
    method PrepareOutput(file: Blob, item: Item) returns (r: Settled)
      requires Valid()
      modifies this, item
      ensures Valid()
      // cache hit: the stored artifact, nothing compressed, nothing written
      ensures FileIdentifier(sha256, file.content) in old(zipped) ==>
        && r == Resolved(Archive(old(zipped)[FileIdentifier(sha256, file.content)]))
        && zipped == old(zipped) && compressions == old(compressions)
        && item.metadata == old(item.metadata)
      // miss on a non-file: the item itself, nothing compressed, nothing written
      ensures FileIdentifier(sha256, file.content) !in old(zipped) && !isFile(file) ==>
        && r == Resolved(PassedThrough(item))
        && zipped == old(zipped) && compressions == old(compressions)
        && item.metadata == old(item.metadata)
      // miss on a file: the archiver runs exactly once
      ensures FileIdentifier(sha256, file.content) !in old(zipped) && isFile(file) ==>
        compressions == old(compressions) + 1
      // it succeeds: one new entry, its size recorded, the entry returned
      ensures FileIdentifier(sha256, file.content) !in old(zipped) && isFile(file) &&
              archive(file.name, file.content).Success? ==>
        var entry := Artifact(file, archive(file.name, file.content).value);
        && zipped == old(zipped)[FileIdentifier(sha256, file.content) := entry]
        && |zipped| == |old(zipped)| + 1
        && item.metadata == old(item.metadata)[FILE_SIZE_KEY := entry.Size()]
        && r == Resolved(Archive(entry))
      // it fails: rejected with the archiver's error, nothing written
      ensures FileIdentifier(sha256, file.content) !in old(zipped) && isFile(file) &&
              archive(file.name, file.content).Failure? ==>
        && r == Rejected(archive(file.name, file.content).error)
        && zipped == old(zipped)
        && item.metadata == old(item.metadata)
    {
      var fileId := FileIdentifier(sha256, file.content);
      if fileId in zipped {
        return Resolved(Archive(zipped[fileId]));
      }
      if !isFile(file) {
        return Resolved(PassedThrough(item));
      }
      compressions := compressions + 1;
      var generated := archive(file.name, file.content);
      match generated {
        case Success(content) =>
          ghost var before, sources := zipped, origin;
          zipped := zipped[fileId := Artifact(file, content)];
          origin := origin[fileId := file];
          forall id | id in zipped
            ensures IsEntry(id, origin[id], zipped[id])
          {
            if id != fileId {
              assert zipped[id] == before[id] && origin[id] == sources[id];
            }
          }
          item.SetMetadata(FILE_SIZE_KEY, zipped[fileId].Size());
          r := Resolved(Archive(zipped[fileId]));
        case Failure(error) =>
          r := Rejected(error);
      }
    }
  }

  /**
   * Two calls with the same bytes: once the first has resolved with an
   * artifact, the second resolves with that same artifact, and at most one
   * compression happened over both calls.
   */
  method PrepareSameContentTwice(p: Plugin, a: Blob, b: Blob, first: Item, second: Item)
    returns (r1: Settled, r2: Settled)
    requires p.Valid() && a.content == b.content
    modifies p, first, second
    ensures p.Valid()
    ensures r1.Resolved? && r1.output.Archive? ==>
      r2 == r1 && p.compressions <= old(p.compressions) + 1
  {
    r1 := p.PrepareOutput(a, first);
    r2 := p.PrepareOutput(b, second);
  }

  /**
   * A rejected compression leaves no entry behind: the next call with the
   * same file runs the archiver again. Because `archive` is a fixed function
   * here, that second run fails the same way.
   */
  method RetryAfterFailure(p: Plugin, file: Blob, first: Item, second: Item)
    returns (r1: Settled, r2: Settled)
    requires p.Valid()
    modifies p, first, second
    ensures p.Valid()
    ensures r1.Rejected? ==>
      && FileIdentifier(p.sha256, file.content) !in p.zipped
      && p.zipped == old(p.zipped)
      && p.compressions == old(p.compressions) + 2
      && r2 == r1
  {
    ghost var id := FileIdentifier(p.sha256, file.content);
    ghost var outcome := p.archive(file.name, file.content);
    r1 := p.PrepareOutput(file, first);
    ghost var missed := id !in old(p.zipped) && p.isFile(file) && outcome.Failure?;
    assert r1.Rejected? ==> missed;
    r2 := p.PrepareOutput(file, second);
  }
}
