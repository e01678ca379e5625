/** How large manifests and archives get, so that limits on the input imply the limits of the device. */
module Sizes {
  import opened Bytes
  import opened TarFormat
  import opened TarWriter
  import opened ManifestFormat
  import opened ManifestWriter
  import opened ManifestCheck
  import opened Packager

  /** What the archive needs besides files and build texts: fixed manifest text, zero blocks, padding. */
  const OVERHEAD: nat := 12_700

  /** Contents, and one header with padding, of each file. */
  ghost function DataSize(files: seq<SourceFile>): nat {
    if files == [] then 0
    else DataSize(files[..|files| - 1]) + |files[|files| - 1].data| + 2 * BLOCK_SIZE
  }

  /** A bound on the manifest entries of the files: six bytes a path byte, and their fixed part. */
  ghost function ListingSize(files: seq<SourceFile>): nat {
    if files == [] then 0 else 6 * |files[0].path| + 484 + ListingSize(files[1..])
  }

  ghost function Footprint(files: seq<SourceFile>): nat {
    DataSize(files) + ListingSize(files)
  }

  function TextsSize(r: Release): nat {
    6 * (|r.platform| + |r.fwVersion| + |r.buildDate| + |r.gitCommit|)
  }

  // ---- The manifest ----

  lemma {:induction false} EscapedSize(v: bytes, tail: bytes)
    ensures |Escaped(v, tail)| <= 6 * |v| + |tail|
  {
    if v != [] {
      EscapedSize(v[1..], tail);
      assert |EscapedByte(v[0])| <= 6;
    }
  }

  lemma PairSize(key: bytes, value: bytes, tail: bytes)
    ensures |Pair(key, value, tail)| <= 6 * |key| + 6 * |value| + 6 + |tail|
  {
    hide Escaped;
    EscapedSize(value, [QUOTE] + tail);
    EscapedSize(key, [QUOTE] + ([COLON, SPACE] + Quoted(value, tail)));
  }

  lemma ObjectSize(r: Record, tail: bytes)
    requires |r.hash| == HASH_LENGTH
    ensures |ObjectText(r, tail)| <= 6 * |r.path| + 477 + |tail|
  {
    hide Pair;
    assert |PATH| == 4 && |SHA256| == 6;
    var afterHash := Indent(4) + ([RBRACE] + tail);
    PairSize(SHA256, r.hash, afterHash);
    PairSize(PATH, r.path, [COMMA] + (Indent(6) + Pair(SHA256, r.hash, afterHash)));
  }

  lemma {:induction false} ItemsSize(sha: bytes -> Digest, files: seq<SourceFile>, tail: bytes)
    ensures |ItemsText(RecordsOf(sha, files), tail)| <= ListingSize(files) + |tail|
  {
    hide ObjectText, Hex;
    var records := RecordsOf(sha, files);
    if files != [] {
      ItemsSize(sha, files[1..], tail);
      assert records[1..] == RecordsOf(sha, files[1..]);
      var rest := if |records| == 1 then tail else [COMMA] + ItemsText(records[1..], tail);
      ObjectSize(records[0], rest);
    }
  }

  lemma FieldSize(f: Field, tail: bytes, most: nat)
    requires |f.key| <= most
    ensures |Pair(f.key, f.value, [COMMA] + (Indent(2) + tail))| <= 6 * most + 6 * |f.value| + 10 + |tail|
  {
    hide Pair;
    PairSize(f.key, f.value, [COMMA] + (Indent(2) + tail));
  }

  lemma FieldsSize(r: Release, tail: bytes)
    ensures |FieldsText(FieldsOf(r), tail)| <= TextsSize(r) + 292 + |tail|
  {
    var fields := FieldsOf(r);
    assert fields[3..][1..] == [] && fields[2..][1..] == fields[3..] && fields[1..][1..] == fields[2..];
    hide Pair;
    assert FieldsText([], tail) == tail;
    var gitCommit := FieldsText(fields[3..], tail);
    var buildDate := FieldsText(fields[2..], tail);
    var fwVersion := FieldsText(fields[1..], tail);
    FieldSize(fields[3], tail, 10);
    FieldSize(fields[2], gitCommit, 14);
    FieldSize(fields[1], buildDate, 10);
    FieldSize(fields[0], fwVersion, 8);
  }

  /** The manifest text is bounded by the paths it lists and the texts it carries. */
  lemma ManifestSize(sha: bytes -> Digest, files: seq<SourceFile>, r: Release)
    ensures |ManifestText(FieldsOf(r), RecordsOf(sha, files))| <= ListingSize(files) + TextsSize(r) + 340
  {
    hide Escaped, ItemsText, FieldsText, ListingSize, TextsSize;
    var end := Indent(0) + [RBRACE];
    ItemsSize(sha, files, Indent(2) + ([RBRACKET] + end));
    var list := [COLON, SPACE] + ListText(RecordsOf(sha, files), end);
    assert |FILES| == 5;
    EscapedSize(FILES, [QUOTE] + list);
    FieldsSize(r, Quoted(FILES, list));
  }

  // ---- The archive ----

  lemma {:induction false} BodySize(files: seq<SourceFile>)
    requires AllStorable(files)
    ensures |Body(ImagesOf(files))| <= DataSize(files)
  {
    hide PaddedSize, Header, PowerOf8;
    if files != [] {
      var init := files[..|files| - 1];
      BodySize(init);
      assert ImagesOf(files)[..|files| - 1] == ImagesOf(init);
    }
  }

  lemma DataPush(files: seq<SourceFile>, f: SourceFile)
    ensures DataSize(files + [f]) == DataSize(files) + |f.data| + 2 * BLOCK_SIZE
  {
    assert (files + [f])[..|files|] == files;
  }

  lemma PowersOf8()
    ensures PowerOf8(7) == 2097152 && PowerOf8(11) == 8589934592
  {
    assert PowerOf8(5) == 32768;
    assert PowerOf8(7) == 2097152;
    assert PowerOf8(9) == 134217728;
  }

  lemma ManifestIsStorable(sha: bytes -> Digest, files: seq<SourceFile>, r: Release)
    requires ListingSize(files) + TextsSize(r) + 340 < PowerOf8(11)
    ensures Storable(ManifestFile(sha, files, r))
  {
    hide ManifestText, ListingSize;
    ManifestSize(sha, files, r);
    assert |MANIFEST_NAME| == 13 && NUL !in MANIFEST_NAME;
    PowersOf8();
    hide PowerOf8;
  }

  /** The staged archive is bounded by the files' contents and paths and the build texts, so that a limit
      on those keeps it below the device's cap. */
  lemma ArchiveSize(sha: bytes -> Digest, files: seq<SourceFile>, r: Release)
    requires AllStorable(files) && ListingSize(files) + TextsSize(r) + 340 < PowerOf8(11)
    ensures AllStorable(Staged(sha, files, r))
    ensures |Archive(Staged(sha, files, r))| <= Footprint(files) + TextsSize(r) + OVERHEAD
  {
    hide ManifestText, Storable, Header, Body, PaddedSize, DataSize, ListingSize, TextsSize, PowerOf8, ImagesOf;
    var staged := Staged(sha, files, r);
    ManifestIsStorable(sha, files, r);
    ManifestSize(sha, files, r);
    forall k | 0 <= k < |staged| ensures Storable(staged[k]) {
      assert k < |files| ==> staged[k] == files[k];
    }
    BodySize(staged);
    DataPush(files, ManifestFile(sha, files, r));
  }
}
