/** The packager: manifest, archive, and the signed and encrypted package. */
module Packager {
  import opened Bytes
  import opened Blobs
  import opened TarFormat
  import opened TarWriter
  import opened ManifestFormat
  import opened ManifestWriter
  import opened ManifestCheck

  /** What the packager says about the build, besides the files. */
  datatype Release = Release(platform: bytes, fwVersion: bytes, buildDate: bytes, gitCommit: bytes)

  /** `tarfile.TarInfo` defaults, which the manifest member keeps. */
  function DefaultMeta(): Meta {
    Meta(420, 0, 0, 0, [], [], Zeros(16))
  }

  function FieldsOf(r: Release): seq<Field> {
    [Field(Ascii("platform"), r.platform), Field(Ascii("fw_version"), r.fwVersion),
     Field(Ascii("build_date_utc"), r.buildDate), Field(Ascii("git_commit"), r.gitCommit)]
  }

  function RecordOf(sha: bytes -> Digest, f: SourceFile): Record {
    Record(f.path, Hex(sha(f.data)))
  }

  function RecordsOf(sha: bytes -> Digest, files: seq<SourceFile>): (records: seq<Record>)
    ensures |records| == |files|
  {
    seq(|files|, k requires 0 <= k < |files| => RecordOf(sha, files[k]))
  }

  /** The loop of `build_manifest` over the files in walk order. */
  method BuildManifest(sha: bytes -> Digest, files: seq<SourceFile>) returns (records: seq<Record>)
    ensures records == RecordsOf(sha, files)
  {
    records := [];
    var i := 0;
    while i < |files|
      invariant i <= |files|
      invariant records == RecordsOf(sha, files[..i])
    {
      assert forall k | 0 <= k < i :: files[..i + 1][k] == files[..i][k];
      records := records + [RecordOf(sha, files[i])];
      i := i + 1;
    }
    assert files[..i] == files;
  }

  function ManifestFile(sha: bytes -> Digest, files: seq<SourceFile>, r: Release): SourceFile {
    SourceFile(MANIFEST_NAME, ManifestText(FieldsOf(r), RecordsOf(sha, files)), DefaultMeta())
  }

  /** The members of the archive: the files in walk order, then the manifest. */
  function Staged(sha: bytes -> Digest, files: seq<SourceFile>, r: Release): seq<SourceFile> {
    files + [ManifestFile(sha, files, r)]
  }

  /** `stage_and_compress` up to the compressor: members are appended to a growing buffer, and closing
      the archive adds the zero blocks and the record padding. */
  method StageArchive(members: seq<SourceFile>) returns (tar: bytes)
    requires AllStorable(members)
    ensures tar == Archive(members)
  {
    tar := [];
    ghost var images := ImagesOf(members);
    assert images[..0] == [];
    var i := 0;
    while i < |members|
      invariant i <= |members|
      invariant tar == Body(images[..i])
    {
      hide TarWriter.Header;
      BodyPush(images, i);
      assert Storable(members[i]);
      var image := ImageOf(members[i]);
      tar := tar + (image.header + image.data + Padding(|image.data|));
      i := i + 1;
    }
    assert images[..i] == images;
    tar := tar + Zeros(2 * BLOCK_SIZE) + RecordPadding(|tar| + 2 * BLOCK_SIZE);
  }

  /** Compression and cryptography, with the keys of this packaging run. */
  datatype Toolchain = Toolchain(
    sha: bytes -> Digest,
    compress: bytes -> bytes,
    encrypt: (bytes, bytes, bytes) -> bytes,
    wrap: bytes -> bytes,
    sign: bytes -> bytes,
    aesKey: bytes,
    iv: bytes)

  /** `pack`: None where building the header or assembling the package raises. */
  ghost function Pack(t: Toolchain, files: seq<SourceFile>, r: Release): Option<bytes>
    requires AllStorable(Staged(t.sha, files, r))
  {
    var tarball := t.compress(Archive(Staged(t.sha, files, r)));
    var ciphertext := t.encrypt(t.aesKey, t.iv, tarball);
    var wrappedKey := t.wrap(t.aesKey);
    var header := BuildHeader(r.platform, r.fwVersion, t.iv, |wrappedKey|);
    if header.None? then None
    else Assemble(header.value, wrappedKey, t.sign(header.value + wrappedKey + ciphertext), ciphertext)
  }
}
