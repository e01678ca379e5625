/** Packaging and then installing: the device undoes the packager. */
module EndToEnd {
  import opened Bytes
  import opened Paths
  import opened Results
  import opened Decompression
  import opened Versions
  import opened Blobs
  import opened TarFormat
  import opened TarWriter
  import opened ManifestFormat
  import opened ManifestWriter
  import opened ManifestCheck
  import opened Disks
  import opened Installer
  import opened InstallerLaws
  import opened Device
  import opened DeviceLaws
  import opened Packager
  import opened Sizes

  // ---- The staged archive validates ----

  ghost predicate NoManifestAmong(files: seq<SourceFile>) {
    forall k | 0 <= k < |files| :: files[k].path != MANIFEST_NAME
  }

  /** No build text misleads the device's search for the file list. */
  ghost predicate ClearRelease(r: Release) {
    !Misleads(r.platform) && !Misleads(r.fwVersion) && !Misleads(r.buildDate) && !Misleads(r.gitCommit)
  }

  /** Paths that `json.dumps` prints without an escape the device does not know. */
  ghost predicate PrintablePaths(files: seq<SourceFile>) {
    forall k | 0 <= k < |files| :: Printable(files[k].path)
  }

  lemma FieldKeysAreClear()
    ensures !Misleads(Ascii("platform")) && !Misleads(Ascii("fw_version"))
    ensures !Misleads(Ascii("build_date_utc")) && !Misleads(Ascii("git_commit"))
  {
    KeyBytes();
    var keys := [Ascii("platform"), Ascii("fw_version"), Ascii("build_date_utc"), Ascii("git_commit")];
    assert FILES_TAIL[5] == 115 && FILES[4] == 115;
    forall k | 0 <= k < 4 ensures !Misleads(keys[k]) {
      var v := keys[k];
      assert v[|v| - 1] != 115;
      assert |v| >= 6 ==> v[|v| - 6..][5] == v[|v| - 1];
    }
    assert keys[0] == Ascii("platform") && keys[1] == Ascii("fw_version");
    assert keys[2] == Ascii("build_date_utc") && keys[3] == Ascii("git_commit");
  }

  lemma ReleaseIsSearchable(r: Release)
    ensures Searchable(FieldsOf(r)) <==> ClearRelease(r)
  {
    hide Misleads;
    FieldKeysAreClear();
    var fields := FieldsOf(r);
    assert fields[0].value == r.platform && fields[1].value == r.fwVersion;
    assert fields[2].value == r.buildDate && fields[3].value == r.gitCommit;
    if Searchable(fields) {
      assert !Misleading(fields[0]) && !Misleading(fields[1]) && !Misleading(fields[2]) && !Misleading(fields[3]);
    }
  }

  lemma ManifestNameBytes()
    ensures MANIFEST_NAME == [109, 97, 110, 105, 102, 101, 115, 116, 46, 106, 115, 111, 110]
  {
  }

  lemma ManifestNameIsNormalised()
    ensures Normalised(MANIFEST_NAME) && Split(MANIFEST_NAME, SLASH) == [MANIFEST_NAME]
    ensures NUL !in MANIFEST_NAME && |MANIFEST_NAME| == 13
  {
    var name := MANIFEST_NAME;
    ManifestNameBytes();
    hide MANIFEST_NAME;
    assert name[..13] == name;
    SplitWithoutSeparator(name, 13, SLASH);
    assert forall c <- [name] :: c == name;
  }

  lemma StagedPathsSafe(sha: bytes -> Digest, files: seq<SourceFile>, r: Release)
    requires ProperTree(files)
    ensures AllSafe(Staged(sha, files, r))
  {
    hide ManifestText, Normalised, SafePath;
    ManifestNameIsNormalised();
    var staged := Staged(sha, files, r);
    forall k | 0 <= k < |staged| ensures SafePath(staged[k].path) {
      assert k < |files| ==> staged[k] == files[k];
      NormalisedIsSafe(staged[k].path);
    }
  }

  lemma DistinctPaths(files: seq<SourceFile>, j: nat, k: nat)
    requires ProperTree(files) && j < |files| && k < |files| && files[j].path == files[k].path
    ensures j == k
  {
    hide Normalised;
    assert Components(files[j]) <= Components(files[k]);
  }

  lemma {:induction false} PayloadBut(entries: seq<Entry>, m: nat)
    requires forall k | 0 <= k < |entries| :: IsPayload(entries[k]) <==> k != m
    ensures |Payload(entries)| == |entries| - (if m < |entries| then 1 else 0)
  {
    hide IsPayload;
    if entries == [] {
      NoPayload();
    } else {
      PayloadCount(entries);
      hide Payload;
      PayloadBut(entries[..|entries| - 1], m);
    }
  }

  /** The staged entries, as the device finds them. */
  ghost predicate StagedEntries(tar: bytes, entries: seq<Entry>, files: seq<SourceFile>, text: bytes) {
    && InBuffer(tar, entries)
    && FilesThenManifest(tar, entries, files)
    && Denotes(tar, entries[|files|], MANIFEST_NAME, text)
  }

  lemma PayloadOfStaged(tar: bytes, entries: seq<Entry>, files: seq<SourceFile>, text: bytes)
    requires StagedEntries(tar, entries, files, text)
    ensures |Payload(entries)| == |files|
  {
    hide Payload, InBuffer, DataOf;
    forall k | 0 <= k < |entries| ensures IsPayload(entries[k]) <==> k != |files| {
      if k < |files| {
        assert Denotes(tar, entries[k], files[k].path, files[k].data);
      }
    }
    PayloadBut(entries, |files|);
  }

  lemma RecordMatches(sha: bytes -> Digest, tar: bytes, entries: seq<Entry>, files: seq<SourceFile>, text: bytes,
      k: nat)
    requires StagedEntries(tar, entries, files, text)
    requires ProperTree(files) && k < |files| && NUL !in files[k].path
    ensures Matches(sha, tar, entries, RecordOf(sha, files[k]))
  {
    hide ProperTree, Payload;
    var path := files[k].path;
    CStringWhole(path);
    HexIsInjective(sha(files[k].data), sha(files[k].data));
    CStringWhole(Hex(sha(files[k].data)));
    forall j | 0 <= j < k ensures !Names(entries[j], path) {
      if entries[j].path == path {
        DistinctPaths(files, j, k);
      }
    }
    FirstIs(entries, path, k);
  }

  lemma StagedManifestIsFirst(tar: bytes, entries: seq<Entry>, files: seq<SourceFile>, text: bytes)
    requires StagedEntries(tar, entries, files, text)
    ensures FirstFile(entries, MANIFEST_NAME) == Some(|files|)
  {
    FirstIs(entries, MANIFEST_NAME, |files|);
  }

  /** Storable members with paths the device's manifest reader can hold. */
  lemma StoredPath(files: seq<SourceFile>, k: nat)
    requires AllStorable(files) && k < |files|
    ensures NUL !in files[k].path && |files[k].path| <= MAX_PATH
  {
  }

  lemma RecordsAreReadable(sha: bytes -> Digest, files: seq<SourceFile>)
    requires AllStorable(files)
    ensures AllReadable(RecordsOf(sha, files)) <==> PrintablePaths(files)
  {
    hide Storable, Printable;
    var records := RecordsOf(sha, files);
    forall k | 0 <= k < |files| ensures Readable(records[k]) <==> Printable(files[k].path) {
      StoredPath(files, k);
      HexIsInjective(sha(files[k].data), sha(files[k].data));
    }
  }

  lemma StagedManifestParses(sha: bytes -> Digest, files: seq<SourceFile>, r: Release)
    requires AllStorable(files)
    ensures ParseManifest(ManifestText(FieldsOf(r), RecordsOf(sha, files)))
         == if ClearRelease(r) && PrintablePaths(files) then Some(RecordsOf(sha, files)) else None
  {
    hide ManifestText, ParseManifest, Readable, AllReadable, PrintablePaths, Storable, ClearRelease;
    ReleaseIsSearchable(r);
    RecordsAreReadable(sha, files);
    ManifestRoundTrip(FieldsOf(r), RecordsOf(sha, files));
  }

  lemma StagedCheck(sha: bytes -> Digest, tar: bytes, entries: seq<Entry>, files: seq<SourceFile>, r: Release)
    requires AllStorable(files) && ProperTree(files)
    requires StagedEntries(tar, entries, files, ManifestText(FieldsOf(r), RecordsOf(sha, files)))
    ensures CheckManifest(sha, tar, entries) == if ClearRelease(r)
        && PrintablePaths(files) then InstallOk else ManifestParse
  {
    hide ManifestText, ParseManifest, ProperTree, Storable, ClearRelease, PrintablePaths, Matches, Payload;
    var text := ManifestText(FieldsOf(r), RecordsOf(sha, files));
    StagedManifestIsFirst(tar, entries, files, text);
    StagedManifestParses(sha, files, r);
    PayloadOfStaged(tar, entries, files, text);
    var records := RecordsOf(sha, files);
    forall k | 0 <= k < |records| ensures Matches(sha, tar, entries, records[k]) {
      StoredPath(files, k);
      RecordMatches(sha, tar, entries, files, text, k);
    }
  }

  lemma StagedIsParsed(sha: bytes -> Digest, files: seq<SourceFile>, r: Release)
    requires ProperTree(files) && NoManifestAmong(files)
    requires AllStorable(Staged(sha, files, r)) && |Archive(Staged(sha, files, r))| < SIZE_MODULUS
    ensures var tar := Archive(Staged(sha, files, r));
            && ParseTar(tar).TarOk?
            && StagedEntries(tar, ParseTar(tar).entries, files, ManifestText(FieldsOf(r), RecordsOf(sha, files)))
  {
    hide ManifestText, ProperTree, Storable, Archive, ParseTar;
    var staged := Staged(sha, files, r);
    var tar := Archive(staged);
    StagedPathsSafe(sha, files, r);
    ArchiveRoundTrip(staged);
    AcceptedInBuffer(tar);
    var entries := ParseTar(tar).entries;
    forall k | 0 <= k < |files| ensures Denotes(tar, entries[k], files[k].path, files[k].data) {
      assert staged[k] == files[k];
    }
    assert Denotes(tar, entries[|files|], staged[|files|].path, staged[|files|].data);
  }

  lemma FilesAreStorable(sha: bytes -> Digest, files: seq<SourceFile>, r: Release)
    requires AllStorable(Staged(sha, files, r))
    ensures AllStorable(files)
  {
    hide ManifestText, Storable;
    var staged := Staged(sha, files, r);
    forall k | 0 <= k < |files| ensures Storable(files[k]) {
      assert staged[k] == files[k];
    }
  }

  /** The device validates a staged archive exactly when the build texts do not mislead its search and
      all paths are printable. */
  lemma StagedArchiveValidates(sha: bytes -> Digest, files: seq<SourceFile>, r: Release)
    requires ProperTree(files) && NoManifestAmong(files)
    requires AllStorable(Staged(sha, files, r)) && |Archive(Staged(sha, files, r))| < SIZE_MODULUS
    ensures Validate(sha, Archive(Staged(sha, files, r))) == if ClearRelease(r)
        && PrintablePaths(files) then InstallOk else ManifestParse
  {
    hide PrintablePaths, ManifestText, ProperTree, Archive, ParseTar, CheckManifest, StagedEntries, AllStorable;
    FilesAreStorable(sha, files, r);
    StagedIsParsed(sha, files, r);
    var tar := Archive(Staged(sha, files, r));
    StagedCheck(sha, tar, ParseTar(tar).entries, files, r);
  }

  // ---- An archive the check should not accept ----

  /** Two files, and a manifest that lists the first of them twice. */
  ghost function MislistedArchive(sha: bytes -> Digest, a: SourceFile, b: SourceFile, r: Release): seq<SourceFile> {
    [a, b, SourceFile(MANIFEST_NAME, ManifestText(FieldsOf(r), [RecordOf(sha, a), RecordOf(sha, a)]), DefaultMeta())]
  }

  lemma MislistedIsStorable(sha: bytes -> Digest, a: SourceFile, b: SourceFile, r: Release)
    requires Storable(a) && Storable(b) && TextsSize(r) < 1_000_000
    ensures AllStorable(MislistedArchive(sha, a, b, r))
  {
    hide ManifestText, Storable;
    var twice := [a, a];
    assert RecordsOf(sha, twice) == [RecordOf(sha, a), RecordOf(sha, a)];
    assert MislistedArchive(sha, a, b, r)[2] == ManifestFile(sha, twice, r);
    TwiceListed(a);
    PowersOf8();
    ManifestIsStorable(sha, twice, r);
  }

  lemma TwiceListed(a: SourceFile)
    requires Storable(a)
    ensures ListingSize([a, a]) <= 10_000
  {
    assert [a, a][1..] == [a] && [a][1..] == [];
    assert ListingSize([a]) == 6 * |a.path| + 484 + ListingSize([]);
  }

  lemma MislistedIsSmall(sha: bytes -> Digest, a: SourceFile, b: SourceFile, r: Release)
    requires AllStorable(MislistedArchive(sha, a, b, r))
    ensures |Archive(MislistedArchive(sha, a, b, r))| < SIZE_MODULUS
  {
    hide ManifestText, Body, DataSize, ImagesOf;
    var files := MislistedArchive(sha, a, b, r);
    BodySize(files);
    assert DataSize([]) == 0 by {
      ListedNothing();
    }
    DataPush([], files[0]);
    DataPush([files[0]], files[1]);
    DataPush([files[0], files[1]], files[2]);
    assert [] + [files[0]] == [files[0]] && [files[0]] + [files[1]] == [files[0], files[1]];
    assert [files[0], files[1]] + [files[2]] == files;
    PowersOf8();
    hide PowerOf8;
    assert forall k | 0 <= k < 3 :: Storable(files[k]);
  }

  lemma ListedNothing()
    ensures DataSize([]) == 0
  {
  }

  /** The device finds the two files and the manifest. */
  lemma MislistedEntries(sha: bytes -> Digest, a: SourceFile, b: SourceFile, r: Release)
    requires Storable(a) && Storable(b) && SafePath(a.path) && SafePath(b.path) && TextsSize(r) < 1_000_000
    ensures AllStorable(MislistedArchive(sha, a, b, r)) && |Archive(MislistedArchive(sha, a, b, r))| < SIZE_MODULUS
    ensures var files := MislistedArchive(sha, a, b, r);
            var tar := Archive(files);
            && ParseTar(tar).TarOk? && InBuffer(tar, ParseTar(tar).entries)
            && DenotesAll(tar, ParseTar(tar).entries, files)
  {
    hide Archive, ParseTar, SafePath, Storable, AllStorable, AllSafe, DenotesAll, InBuffer, TextsSize, MislistedArchive;
    var files := MislistedArchive(sha, a, b, r);
    MislistedIsStorable(sha, a, b, r);
    MislistedIsSmall(sha, a, b, r);
    MislistedIsSafe(sha, a, b, r);
    ArchiveRoundTrip(files);
    AcceptedInBuffer(Archive(files));
  }

  lemma MislistedIsSafe(sha: bytes -> Digest, a: SourceFile, b: SourceFile, r: Release)
    requires SafePath(a.path) && SafePath(b.path)
    ensures AllSafe(MislistedArchive(sha, a, b, r))
  {
    hide ManifestText, SafePath, Normalised, MANIFEST_NAME, FieldsOf, RecordOf, DefaultMeta;
    ManifestNameIsNormalised();
    NormalisedIsSafe(MANIFEST_NAME);
  }

  /** Every archive of two different files whose manifest lists the first twice is accepted by the device,
      for every hash function, although the second file is not listed. */
  lemma RepeatedPathHidesFile(sha: bytes -> Digest, a: SourceFile, b: SourceFile, r: Release)
    requires Storable(a) && Storable(b) && SafePath(a.path) && SafePath(b.path) && Printable(a.path)
    requires a.path != MANIFEST_NAME && b.path != MANIFEST_NAME && a.path != b.path
    requires ClearRelease(r) && TextsSize(r) < 1_000_000
    ensures var records := [RecordOf(sha, a), RecordOf(sha, a)];
            && ParseManifest(ManifestText(FieldsOf(r), records)) == Some(records)
            && (forall k | 0 <= k < |records| :: CString(records[k].path) != b.path)
    ensures AllStorable(MislistedArchive(sha, a, b, r)) && |Archive(MislistedArchive(sha, a, b, r))| < SIZE_MODULUS
    ensures Validate(sha, Archive(MislistedArchive(sha, a, b, r))) == InstallOk
    ensures var tar := Archive(MislistedArchive(sha, a, b, r));
            !ExactListing(sha, tar, ParseTar(tar).entries, [RecordOf(sha, a), RecordOf(sha, a)])
  {
    hide ExactListing, ManifestText, ParseManifest, Archive, ParseTar, Agrees, ClearRelease, SafePath, Storable,
      AllStorable, Readable, InBuffer, FirstFile, Hex, TextsSize, CString;
    var files, record := MislistedArchive(sha, a, b, r), RecordOf(sha, a);
    MislistedEntries(sha, a, b, r);
    PlainRecord(sha, a);
    ReleaseIsSearchable(r);
    assert AllReadable([record, record]);
    ManifestRoundTrip(FieldsOf(r), [record, record]);
    MislistedCheck(sha, Archive(files), ParseTar(Archive(files)).entries, a, b, files[2].data, record);
  }

  lemma MislistedCheck(sha: bytes -> Digest, tar: bytes, entries: seq<Entry>, a: SourceFile, b: SourceFile, text: bytes,
      record: Record)
    requires InBuffer(tar, entries) && |entries| == 3
    requires Denotes(tar, entries[0], a.path, a.data) && Denotes(tar, entries[1], b.path, b.data)
    requires Denotes(tar, entries[2], MANIFEST_NAME, text) && ParseManifest(text) == Some([record, record])
    requires a.path != MANIFEST_NAME && b.path != MANIFEST_NAME
    requires CString(record.path) == a.path && CString(record.hash) == Hex(sha(a.data))
    ensures CheckManifest(sha, tar, entries) == InstallOk
    ensures !ExactListing(sha, tar, entries, [record, record])
  {
    hide ParseManifest, Agrees, FirstFile, Hex, CString, Payload, InBuffer, MANIFEST_NAME, ExactListing;
    assert entries == [entries[0], entries[1], entries[2]];
    FirstIs(entries, MANIFEST_NAME, 2);
    RepeatedListingAgrees(sha, tar, entries[0], entries[1], entries[2], record);
  }

  lemma PlainRecord(sha: bytes -> Digest, a: SourceFile)
    requires Storable(a) && Printable(a.path)
    ensures var record := RecordOf(sha, a);
            Readable(record) && CString(record.path) == a.path && CString(record.hash) == Hex(sha(a.data))
  {
    HexIsInjective(sha(a.data), sha(a.data));
    CStringWhole(Hex(sha(a.data)));
    CStringWhole(a.path);
  }

  // ---- Staging and then extracting ----

  /** The host inflates this payload to this archive, with the memory that takes. */
  ghost predicate Inflates(host: Host, plaintext: bytes, tar: bytes) {
    && plaintext != []
    && Complete(host.inflater(plaintext), tar)
    && AllocatesUpTo(host.alloc, LargestRequest(MAX_DECOMPRESSED, |tar|))
  }

  lemma InflatedByHost(host: Host, plaintext: bytes, tar: bytes)
    requires Inflates(host, plaintext, tar) && |tar| < MAX_DECOMPRESSED
    ensures Gunzip(host.inflater(plaintext), host.alloc, MAX_DECOMPRESSED, |plaintext|) == Inflated(tar)
  {
    hide Gunzip, AllocatesUpTo, LargestRequest;
    GunzipRefinesInflation(host.inflater(plaintext), host.alloc, MAX_DECOMPRESSED, |plaintext|, tar);
  }

  lemma StoredPathsFit(dir: bytes, files: seq<SourceFile>)
    requires AllStorable(files) && |dir| + 1 + NAME_SIZE < PATH_BUFFER
    ensures PathsFit(dir, files)
  {
    forall k | 0 <= k < |files| ensures |Under(dir, files[k].path)| < PATH_BUFFER {
      assert Storable(files[k]);
    }
  }

  /** Files that the packager stores, none of them called manifest.json, in an archive below the cap. */
  ghost predicate Packable(sha: bytes -> Digest, files: seq<SourceFile>, r: Release) {
    && ProperTree(files) && NoManifestAmong(files)
    && AllStorable(Staged(sha, files, r)) && |Archive(Staged(sha, files, r))| < MAX_DECOMPRESSED
  }

  /** And whose manifest the device reads back. */
  ghost predicate Stageable(sha: bytes -> Digest, files: seq<SourceFile>, r: Release) {
    Packable(sha, files, r) && PrintablePaths(files) && ClearRelease(r)
  }

  /** Extracting a staged tree comes down to installing its files, in order. */
  lemma StagedIsExtracted(host: Host, d: Disk, dir: bytes, plaintext: bytes, files: seq<SourceFile>, r: Release)
    requires Stageable(host.sha, files, r) && |dir| + 1 + NAME_SIZE < PATH_BUFFER
    requires Inflates(host, plaintext, Archive(Staged(host.sha, files, r)))
    ensures var tar := Archive(Staged(host.sha, files, r));
            && ParseTar(tar).TarOk? && InBuffer(tar, ParseTar(tar).entries)
            && FilesThenManifest(tar, ParseTar(tar).entries, files) && PathsFit(dir, files)
            && var o := InstallFrom(host.io, Logged(d, ArchiveValidated(tar)), dir, tar, ParseTar(tar).entries, 0);
               Extract(host, d, dir, plaintext) == Installed(if o.ok then InstallOk else IoError, o.disk)
  {
    hide ManifestText, ProperTree, Archive, ParseTar, CheckManifest, AllStorable, ClearRelease, NoManifestAmong,
      PrintablePaths, Gunzip, InstallFrom, Inflates, Validate, PathsFit, Denotes;
    InflatedByHost(host, plaintext, Archive(Staged(host.sha, files, r)));
    StagedArchiveValidates(host.sha, files, r);
    StagedIsParsed(host.sha, files, r);
    FilesAreStorable(host.sha, files, r);
    StoredPathsFit(dir, files);
  }

  /** Staging a tree of files and extracting it over any tree, without faults: it succeeds if and only if
      there is a place for every file, and leaves the old tree with exactly these files set. */
  lemma ExtractRestoresFiles(host: Host, d: Disk, dir: bytes, plaintext: bytes, files: seq<SourceFile>, r: Release)
    requires Stageable(host.sha, files, r) && |dir| + 1 + NAME_SIZE < PATH_BUFFER
    requires Inflates(host, plaintext, Archive(Staged(host.sha, files, r))) && Faultless(host.io)
    requires IsDirectory(d.nodes, Resolve(dir))
    ensures var e := Extract(host, d, dir, plaintext);
            && e.code == (if FitsInto(d.nodes, Resolve(dir), files) then InstallOk else IoError)
            && (e.code == InstallOk ==> Overlaid(d.nodes, e.disk.nodes, Resolve(dir), files, |files|))
            && (EmptyDirectory(d.nodes, Resolve(dir)) ==>
                  e.code == InstallOk && ExactlyInstalled(e.disk.nodes, Resolve(dir), files))
  {
    var tar := Archive(Staged(host.sha, files, r));
    StagedIsExtracted(host, d, dir, plaintext, files, r);
    assert ProperTree(files);
    hide Stageable, Inflates, Archive, Staged, Extract, ProperTree, ParseTar, FilesThenManifest, PathsFit, Faultless,
      Resolve, InstallFrom, Overlaid, FitsInto, ExactlyInstalled, EmptyDirectory, InBuffer;
    InstallationOverlays(host.io, Logged(d, ArchiveValidated(tar)), dir, tar, ParseTar(tar).entries, files);
    if EmptyDirectory(d.nodes, Resolve(dir)) {
      InstallationIsExact(host.io, Logged(d, ArchiveValidated(tar)), dir, tar, ParseTar(tar).entries, files);
    }
  }

  lemma PackedEntries(sha: bytes -> Digest, files: seq<SourceFile>, r: Release)
    requires Packable(sha, files, r)
    ensures var tar := Archive(Staged(sha, files, r));
            && ParseTar(tar).TarOk? && InBuffer(tar, ParseTar(tar).entries)
            && FilesThenManifest(tar, ParseTar(tar).entries, files)
  {
    hide ManifestText, ProperTree, Archive, ParseTar, AllStorable, Denotes;
    StagedIsParsed(sha, files, r);
  }

  lemma PackedPathsFit(sha: bytes -> Digest, dir: bytes, files: seq<SourceFile>, r: Release)
    requires Packable(sha, files, r) && |dir| + 1 + NAME_SIZE < PATH_BUFFER
    ensures PathsFit(dir, files)
  {
    hide ProperTree, Archive, AllStorable, Staged, PathsFit;
    FilesAreStorable(sha, files, r);
    StoredPathsFit(dir, files);
  }

  /** Whatever interrupts it, and whatever memory is refused, extracting a packed tree changes no place but
      those of its files and of the directories on the way to them; and when it reports success, it has set
      exactly these. */
  lemma ExtractIsPartial(host: Host, d: Disk, dir: bytes, plaintext: bytes, files: seq<SourceFile>, r: Release)
    requires Packable(host.sha, files, r) && |dir| + 1 + NAME_SIZE < PATH_BUFFER
    requires Streams(host.inflater(plaintext), Archive(Staged(host.sha, files, r)))
    ensures var e := Extract(host, d, dir, plaintext);
            && Partly(d.nodes, e.disk.nodes, Resolve(dir), files)
            && (e.code == InstallOk && IsDirectory(d.nodes, Resolve(dir)) ==>
                  Overlaid(d.nodes, e.disk.nodes, Resolve(dir), files, |files|))
  {
    var tar := Archive(Staged(host.sha, files, r));
    PackedEntries(host.sha, files, r);
    PackedPathsFit(host.sha, dir, files, r);
    GunzipRefinesInflation(host.inflater(plaintext), host.alloc, MAX_DECOMPRESSED, |plaintext|, tar);
    PartlyNothing(d.nodes, Resolve(dir), files);
    assert ProperTree(files);
    hide Packable, Archive, Staged, ProperTree, ParseTar, FilesThenManifest, PathsFit, Resolve, InstallFrom, InBuffer,
      Gunzip, CheckManifest, Partly, Overlaid, Streams, Complete;
    if Gunzip(host.inflater(plaintext), host.alloc, MAX_DECOMPRESSED, |plaintext|).Inflated?
       && Validate(host.sha, tar) == InstallOk {
      var d', entries := Logged(d, ArchiveValidated(tar)), ParseTar(tar).entries;
      InstallationIsPartial(host.io, d', dir, tar, entries, files, 0);
      if InstallFrom(host.io, d', dir, tar, entries, 0).ok && IsDirectory(d.nodes, Resolve(dir)) {
        SuccessIsFaultless(host.io, n => NoFault, d', dir, tar, entries, 0);
        InstallationOverlays(n => NoFault, d', dir, tar, entries, files);
      }
    }
  }

  /** An extraction that reports success met no fault. */
  lemma ExtractWithoutFault(host: Host, io: FaultPlan, d: Disk, dir: bytes, plaintext: bytes)
    requires Faultless(io) && Extract(host, d, dir, plaintext).code == InstallOk
    ensures Extract(host.(io := io), d, dir, plaintext) == Extract(host, d, dir, plaintext)
  {
    hide Gunzip, Validate, InstallFrom, Faultless, ParseTar;
    var tar := Gunzip(host.inflater(plaintext), host.alloc, MAX_DECOMPRESSED, |plaintext|).output;
    SuccessIsFaultless(host.io, io, Logged(d, ArchiveValidated(tar)), dir, tar, ParseTar(tar).entries, 0);
  }

  // ---- A source file called manifest.json ----

  /** The place is as it was, or a directory. */
  ghost predicate NoFileWritten(before: Nodes, after: Nodes, at: Location) {
    Seen(after, at) == Seen(before, at) || Seen(after, at) == Some(Directory)
  }

  lemma {:induction false} ParentsWriteNoFile(io: FaultPlan, d: Disk, dir: bytes, rel: bytes, j: nat, at: Location)
    requires j <= |rel|
    ensures NoFileWritten(d.nodes, EnsureParents(io, d, dir, rel, j).disk.nodes, at)
    decreases |rel| - j
  {
    hide Resolve, Under;
    if j < |rel| {
      if rel[j] != SLASH {
        ParentsWriteNoFile(io, d, dir, rel, j + 1, at);
      } else if MakeDir(io, d, Under(dir, rel[..j])).ok {
        ParentsWriteNoFile(io, MakeDir(io, d, Under(dir, rel[..j])).disk, dir, rel, j + 1, at);
      }
    }
  }

  lemma OtherTarget(dir: bytes, path: bytes)
    requires Normalised(path) && path != MANIFEST_NAME
    ensures Resolve(Under(dir, path)) != Resolve(dir) + [MANIFEST_NAME]
  {
    hide Resolve;
    FileTarget(dir, path);
    JoinSplit(path, |path|, SLASH);
    assert path[..|path|] == path;
    assert Join([MANIFEST_NAME], SLASH) == MANIFEST_NAME;
    assert Split(path, SLASH) != [MANIFEST_NAME];
    assert (Resolve(dir) + Split(path, SLASH))[|Resolve(dir)|..] == Split(path, SLASH);
    assert (Resolve(dir) + [MANIFEST_NAME])[|Resolve(dir)|..] == [MANIFEST_NAME];
  }

  lemma EntryIsNotManifest(io: FaultPlan, d: Disk, dir: bytes, path: bytes, data: bytes)
    requires Normalised(path) && path != MANIFEST_NAME
    ensures NoFileWritten(d.nodes, WriteEntry(io, d, dir, path, data).disk.nodes, Resolve(dir) + [MANIFEST_NAME])
  {
    hide EnsureParents, Resolve, Normalised, NamesFile, Under;
    ParentsWriteNoFile(io, d, dir, path, 0, Resolve(dir) + [MANIFEST_NAME]);
    OtherTarget(dir, path);
  }

  ghost predicate AllNormalised(entries: seq<Entry>) {
    forall k | 0 <= k < |entries| :: Normalised(entries[k].path)
  }

  /** Over any tree and under any faults, no file is ever written to the manifest's place. */
  lemma {:induction false} ManifestIsNeverInstalled(io: FaultPlan, d: Disk, dir: bytes, tar: bytes,
      entries: seq<Entry>, i: nat)
    requires i <= |entries| && InBuffer(tar, entries) && AllNormalised(entries)
    ensures NoFileWritten(d.nodes, InstallFrom(io, d, dir, tar, entries, i).disk.nodes, Resolve(dir) + [MANIFEST_NAME])
    decreases |entries| - i
  {
    hide WriteEntry, Resolve, Normalised, MANIFEST_NAME;
    if i < |entries| {
      if !IsPayload(entries[i]) {
        ManifestIsNeverInstalled(io, d, dir, tar, entries, i + 1);
      } else {
        var path, data := entries[i].path, DataOf(tar, entries[i]);
        assert path != MANIFEST_NAME;
        EntryIsNotManifest(io, d, dir, path, data);
        var r := WriteEntry(io, d, dir, path, data);
        if r.ok {
          ManifestIsNeverInstalled(io, r.disk, dir, tar, entries, i + 1);
        }
      }
    }
  }

  /** The staged members, as the device finds them, whatever the files are called. */
  lemma StagedAreDenoted(sha: bytes -> Digest, files: seq<SourceFile>, r: Release)
    requires ProperTree(files)
    requires AllStorable(Staged(sha, files, r)) && |Archive(Staged(sha, files, r))| < SIZE_MODULUS
    ensures var tar := Archive(Staged(sha, files, r));
            && ParseTar(tar).TarOk? && InBuffer(tar, ParseTar(tar).entries)
            && DenotesAll(tar, ParseTar(tar).entries, Staged(sha, files, r))
  {
    hide ManifestText, Storable, Archive, ParseTar, Normalised, ProperTree;
    StagedPathsSafe(sha, files, r);
    ArchiveRoundTrip(Staged(sha, files, r));
    AcceptedInBuffer(Archive(Staged(sha, files, r)));
  }

  /** With a source file of the manifest's name, no other file is at or below the manifest's place. */
  lemma SourceManifestAlone(base: Location, files: seq<SourceFile>, m: nat, k: nat)
    requires ProperTree(files) && m < |files| && k < |files| && files[m].path == MANIFEST_NAME && k != m
    ensures Normalised(files[k].path)
    ensures !(base + [MANIFEST_NAME] <= base + Split(files[k].path, SLASH))
  {
    hide Normalised, MANIFEST_NAME;
    ManifestNameIsNormalised();
    assert Components(files[m]) == [MANIFEST_NAME];
    if base + [MANIFEST_NAME] <= base + Components(files[k]) {
      BaseCancels(base, [MANIFEST_NAME], Components(files[k]));
    }
  }

  /** The entries of a tree whose m-th file is called manifest.json, and the generated manifest behind them. */
  ghost predicate SourceEntries(tar: bytes, entries: seq<Entry>, files: seq<SourceFile>, m: nat) {
    && ProperTree(files) && m < |files| && files[m].path == MANIFEST_NAME
    && |entries| == |files| + 1 && entries[|files|].path == MANIFEST_NAME
    && forall k | 0 <= k < |files| :: Denotes(tar, entries[k], files[k].path, files[k].data)
  }

  lemma SourceIsDenoted(sha: bytes -> Digest, files: seq<SourceFile>, r: Release, m: nat)
    requires ProperTree(files) && m < |files| && files[m].path == MANIFEST_NAME
    requires AllStorable(Staged(sha, files, r)) && |Archive(Staged(sha, files, r))| < SIZE_MODULUS
    ensures var tar := Archive(Staged(sha, files, r));
            && ParseTar(tar).TarOk? && InBuffer(tar, ParseTar(tar).entries)
            && SourceEntries(tar, ParseTar(tar).entries, files, m)
  {
    hide ManifestText, ProperTree, Archive, ParseTar, AllStorable, MANIFEST_NAME, InBuffer, DataOf;
    var staged := Staged(sha, files, r);
    var tar := Archive(staged);
    StagedAreDenoted(sha, files, r);
    var entries := ParseTar(tar).entries;
    assert Denotes(tar, entries[|files|], staged[|files|].path, staged[|files|].data);
    forall k | 0 <= k < |files| ensures Denotes(tar, entries[k], files[k].path, files[k].data) {
      assert staged[k] == files[k];
    }
  }

  lemma ManifestPlaceIsBeside(tar: bytes, entries: seq<Entry>, base: Location, files: seq<SourceFile>, m: nat)
    requires SourceEntries(tar, entries, files, m)
    ensures Beside(base, entries, base + [MANIFEST_NAME])
  {
    hide ProperTree, MANIFEST_NAME, Split, Normalised;
    forall k | 0 <= k < |entries| && IsPayload(entries[k])
      ensures Normalised(entries[k].path)
      ensures !(base < base + [MANIFEST_NAME] <= base + Split(entries[k].path, SLASH))
    {
      assert k < |files| && Denotes(tar, entries[k], files[k].path, files[k].data);
      SourceManifestAlone(base, files, m, k);
    }
  }

  /** Whatever the device makes of it, over any tree and under any faults, a source file called manifest.json
      is never installed: its place stays exactly as it was. */
  lemma SourceManifestIsLost(host: Host, d: Disk, dir: bytes, plaintext: bytes, files: seq<SourceFile>, r: Release,
      m: nat)
    requires ProperTree(files) && m < |files| && files[m].path == MANIFEST_NAME
    requires AllStorable(Staged(host.sha, files, r)) && |Archive(Staged(host.sha, files, r))| < MAX_DECOMPRESSED
    requires Streams(host.inflater(plaintext), Archive(Staged(host.sha, files, r)))
    ensures var place := Resolve(dir) + [MANIFEST_NAME];
            Seen(Extract(host, d, dir, plaintext).disk.nodes, place) == Seen(d.nodes, place)
  {
    hide ManifestText, ProperTree, Archive, ParseTar, CheckManifest, AllStorable, Gunzip, InstallFrom, Resolve, Beside,
      Streams, Complete, SourceEntries, MANIFEST_NAME, InBuffer, Staged;
    var tar := Archive(Staged(host.sha, files, r));
    GunzipRefinesInflation(host.inflater(plaintext), host.alloc, MAX_DECOMPRESSED, |plaintext|, tar);
    SourceIsDenoted(host.sha, files, r, m);
    ManifestPlaceIsBeside(tar, ParseTar(tar).entries, Resolve(dir), files, m);
    if Validate(host.sha, tar) == InstallOk {
      InstallationLeaves(host.io, Logged(d, ArchiveValidated(tar)), dir, tar, ParseTar(tar).entries, 0,
          Resolve(dir) + [MANIFEST_NAME]);
    }
  }

  /** The record names a file of the tree and has its digest. */
  ghost predicate Attests(sha: bytes -> Digest, files: seq<SourceFile>, r: Record) {
    exists j :: 0 <= j < |files| && files[j].path == CString(r.path) && Hex(sha(files[j].data)) == CString(r.hash)
  }

  /** What the device says of a tree whose m-th file is called manifest.json: it reads that file. */
  ghost function SourceVerdict(sha: bytes -> Digest, files: seq<SourceFile>, m: nat): InstallResult
    requires m < |files|
  {
    match ParseManifest(files[m].data)
    case None => ManifestParse
    case Some(records) =>
      if |records| == |files| - 1 && forall k | 0 <= k < |records| :: Attests(sha, files, records[k]) then InstallOk
      else ManifestMismatch
  }

  /** The first file entry of a name is the source file of that name, and there is none of any other name. */
  lemma FirstOfSource(tar: bytes, entries: seq<Entry>, files: seq<SourceFile>, m: nat, path: bytes)
    requires SourceEntries(tar, entries, files, m)
    ensures forall j | 0 <= j < |files| && files[j].path == path :: FirstFile(entries, path) == Some(j)
    ensures (forall j | 0 <= j < |files| :: files[j].path != path) ==> FirstFile(entries, path) == None
  {
    hide ProperTree, MANIFEST_NAME, FirstFile;
    forall k | 0 <= k < |files| ensures Names(entries[k], path) <==> files[k].path == path {
      assert Denotes(tar, entries[k], files[k].path, files[k].data);
    }
    forall j | 0 <= j < |files| && files[j].path == path ensures FirstFile(entries, path) == Some(j) {
      forall i | 0 <= i < j ensures !Names(entries[i], path) {
        if files[i].path == path {
          DistinctPaths(files, i, j);
        }
      }
      FirstIs(entries, path, j);
    }
    if forall j | 0 <= j < |files| :: files[j].path != path {
      assert path != MANIFEST_NAME;
      NoneNamed(entries, path);
    }
  }

  lemma NoneNamed(entries: seq<Entry>, path: bytes)
    requires forall k | 0 <= k < |entries| :: !Names(entries[k], path)
    ensures FirstFile(entries, path) == None
  {
  }

  lemma SourceRecordMatches(sha: bytes -> Digest, tar: bytes, entries: seq<Entry>, files: seq<SourceFile>, m: nat,
      record: Record)
    requires SourceEntries(tar, entries, files, m) && InBuffer(tar, entries)
    ensures Matches(sha, tar, entries, record) <==> Attests(sha, files, record)
  {
    hide ProperTree, MANIFEST_NAME, FirstFile, Hex, CString, InBuffer;
    FirstOfSource(tar, entries, files, m, CString(record.path));
    forall j | 0 <= j < |files|
      ensures entries[j].start + entries[j].size <= |tar| && DataOf(tar, entries[j]) == files[j].data
    {
      assert Denotes(tar, entries[j], files[j].path, files[j].data);
    }
  }

  lemma SourceIsPayload(tar: bytes, entries: seq<Entry>, files: seq<SourceFile>, m: nat, k: nat)
    requires SourceEntries(tar, entries, files, m) && k <= |files|
    ensures IsPayload(entries[k]) <==> k != m && k < |files|
  {
    hide ProperTree, MANIFEST_NAME, DataOf;
    if k < |files| {
      assert Denotes(tar, entries[k], files[k].path, files[k].data);
      if files[k].path == MANIFEST_NAME {
        DistinctPaths(files, k, m);
      }
    }
  }

  lemma SourcePayload(tar: bytes, entries: seq<Entry>, files: seq<SourceFile>, m: nat)
    requires SourceEntries(tar, entries, files, m)
    ensures |Payload(entries)| == |files| - 1
  {
    hide ProperTree, MANIFEST_NAME, IsPayload, Payload, Denotes;
    forall k | 0 <= k <= |files| ensures IsPayload(entries[k]) <==> k != m && k < |files| {
      SourceIsPayload(tar, entries, files, m, k);
    }
    PayloadBut(entries[..|files|], m);
    PayloadCount(entries);
  }

  /** A source file called manifest.json takes the place of the packager's: the device reads it, ignores the
      generated one, and accepts the archive exactly when it lists as many records as there are other files,
      each with the path and digest of a file of the tree. */
  lemma SourceManifestDecides(sha: bytes -> Digest, files: seq<SourceFile>, r: Release, m: nat)
    requires ProperTree(files) && m < |files| && files[m].path == MANIFEST_NAME
    requires AllStorable(Staged(sha, files, r)) && |Archive(Staged(sha, files, r))| < SIZE_MODULUS
    ensures Validate(sha, Archive(Staged(sha, files, r))) == SourceVerdict(sha, files, m)
  {
    hide ManifestText, ProperTree, Archive, ParseTar, AllStorable, MANIFEST_NAME, InBuffer, ParseManifest, Matches,
      Attests, Payload, FirstFile, Staged;
    var tar := Archive(Staged(sha, files, r));
    SourceIsDenoted(sha, files, r, m);
    var entries := ParseTar(tar).entries;
    FirstOfSource(tar, entries, files, m, MANIFEST_NAME);
    assert Denotes(tar, entries[m], files[m].path, files[m].data);
    SourcePayload(tar, entries, files, m);
    forall record: Record ensures Matches(sha, tar, entries, record) <==> Attests(sha, files, record) {
      SourceRecordMatches(sha, tar, entries, files, m, record);
    }
  }

  lemma InstalledIsThere(nodes: Nodes, base: Location, files: seq<SourceFile>, k: nat)
    requires ExactlyInstalled(nodes, base, files) && k < |files| && base < Target(base, files[k])
    ensures Target(base, files[k]) in nodes && nodes[Target(base, files[k])] == File(files[k].data)
  {
    hide Target;
    var at, data := Target(base, files[k]), files[k].data;
    assert Belongs(base, files, at, data);
  }

  /** Staging and extracting is exact if and only if no source file is called manifest.json. */
  lemma ExtractRestoresIff(host: Host, d: Disk, dir: bytes, plaintext: bytes, files: seq<SourceFile>, r: Release)
    requires ProperTree(files) && PrintablePaths(files) && ClearRelease(r)
    requires AllStorable(Staged(host.sha, files, r))
    requires |Archive(Staged(host.sha, files, r))| < MAX_DECOMPRESSED
    requires Inflates(host, plaintext, Archive(Staged(host.sha, files, r))) && Faultless(host.io)
    requires EmptyDirectory(d.nodes, Resolve(dir)) && |dir| + 1 + NAME_SIZE < PATH_BUFFER
    ensures ExactlyInstalled(Extract(host, d, dir, plaintext).disk.nodes, Resolve(dir), files)
        <==> NoManifestAmong(files)
  {
    hide ManifestText, ProperTree, Archive, AllStorable, ClearRelease, Extract, Resolve, FitsInto, Overlaid, Staged,
      PrintablePaths;
    if NoManifestAmong(files) {
      ExtractRestoresFiles(host, d, dir, plaintext, files, r);
    } else {
      var k :| 0 <= k < |files| && files[k].path == MANIFEST_NAME;
      SourceManifestIsLost(host, d, dir, plaintext, files, r, k);
      ManifestNameIsNormalised();
      var at := Resolve(dir) + [MANIFEST_NAME];
      assert Seen(d.nodes, at) == None;
      assert Target(Resolve(dir), files[k]) == at && Resolve(dir) < at;
      var nodes := Extract(host, d, dir, plaintext).disk.nodes;
      if ExactlyInstalled(nodes, Resolve(dir), files) {
        InstalledIsThere(nodes, Resolve(dir), files, k);
      }
    }
  }

  // ---- Packing and then running the device ----

  lemma VersionTextIsPlain(text: bytes)
    requires IsVersionText(text)
    ensures NUL !in text && !Misleads(text) && IsAscii(text)
  {
    forall i | 0 <= i < |text| ensures text[i] == DOT || IsDigit(text[i]) {
      if text[i] != DOT && !IsDigit(text[i]) {
        StrayByteRejects(text, i);
      }
    }
    KeyBytes();
    assert FILES[0] == 102 && FILES_TAIL[5] == 115;
    assert |text| >= 6 ==> text[|text| - 6..][5] == text[|text| - 1];
  }

  lemma PlatformTagIsPlain()
    ensures !Misleads(PLATFORM_TAG) && |PLATFORM_TAG| == 7
  {
    KeyBytes();
    assert PLATFORM_TAG[1..][5] == PLATFORM_TAG[6] == 67;
    assert FILES_TAIL[5] == 115;
  }

  /** The packager's keys and the device's belong together, and this archive reaches the device whole. */
  ghost predicate Paired(t: Toolchain, env: Environment, tar: bytes) {
    && env.host.sha == t.sha
    && env.unwrap(t.wrap(t.aesKey)) == Some(t.aesKey) && |t.aesKey| == AES_KEY_SIZE
    && env.decrypt(t.aesKey, t.iv, t.encrypt(t.aesKey, t.iv, t.compress(tar))) == Some(t.compress(tar))
    && Inflates(env.host, t.compress(tar), tar)
    && env.signingKeyLoads && env.deviceKeyLoads
  }

  /** What the device finds in a packed package. */
  lemma PackedSections(t: Toolchain, files: seq<SourceFile>, r: Release, package: bytes)
    requires AllStorable(Staged(t.sha, files, r)) && Pack(t, files, r) == Some(package)
    ensures |r.platform| <= PLATFORM_TAG_SIZE && |r.fwVersion| <= FW_VERSION_SIZE
    ensures DeviceSplit(package).Some?
    ensures var x := DeviceSplit(package).value;
            && x.header.platformTag == r.platform + Zeros(PLATFORM_TAG_SIZE - |r.platform|)
            && x.header.fwVersion == r.fwVersion + Zeros(FW_VERSION_SIZE - |r.fwVersion|)
            && x.header.iv == t.iv
            && x.signature == t.sign(x.signedData)
            && x.wrappedKey == t.wrap(t.aesKey)
            && x.payload == t.encrypt(t.aesKey, t.iv, t.compress(Archive(Staged(t.sha, files, r))))
    ensures HeaderCheck(package) == HeaderOk && HeaderFields(package) == DeviceSplit(package).value.header
  {
    hide Archive, Staged, AllStorable;
    var ciphertext := t.encrypt(t.aesKey, t.iv, t.compress(Archive(Staged(t.sha, files, r))));
    var wrappedKey := t.wrap(t.aesKey);
    var header := BuildHeader(r.platform, r.fwVersion, t.iv, |wrappedKey|).value;
    DeviceReadsAssembled(r.platform, r.fwVersion, t.iv, wrappedKey, t.sign(header + wrappedKey + ciphertext),
        ciphertext);
  }

  /** The version rule lets this version pass: it is newer than the one seen, or older with the secret. */
  ghost predicate Welcome(inv: Invocation, candidate: Version, seen: Version) {
    || Number(candidate) > Number(seen)
    || (Number(candidate) < Number(seen) && Overrides(inv.env.host.sha, inv.secret, inv.hashFile))
  }

  /** The device admits a packed package for its platform whose version it lets pass. */
  lemma PackedIsAdmitted(s: State, inv: Invocation, t: Toolchain, files: seq<SourceFile>, r: Release)
    requires AllStorable(Staged(t.sha, files, r)) && Pack(t, files, r) == Some(inv.package)
    requires r.platform == PLATFORM_TAG && IsVersionText(r.fwVersion)
    requires VersionSeen(s, inv.env).Some? && Welcome(inv, VersionOf(r.fwVersion), VersionSeen(s, inv.env).value)
    requires inv.env.freeSpace.Some? && DeviceSplit(inv.package).Some?
    requires |DeviceSplit(inv.package).value.payload| <= inv.env.freeSpace.value
    ensures Candidate(inv) == Some(VersionOf(r.fwVersion))
    ensures Admitted(s, inv) == Admit(DeviceSplit(inv.package).value, VersionOf(r.fwVersion))
    ensures Permitted(s, inv)
  {
    hide Archive, Staged, AllStorable, IsVersionText, VersionOf, Pack, DeviceSplit, InstalledVersion, HeaderCheck,
      HeaderFields;
    PackedSections(t, files, r, inv.package);
    VersionTextIsPlain(r.fwVersion);
    CStringStops(r.fwVersion, Zeros(FW_VERSION_SIZE - |r.fwVersion|));
    PlatformTagIsPlain();
  }

  /** Files and build texts the packager accepts and the device can take in full. */
  ghost predicate Shippable(sha: bytes -> Digest, files: seq<SourceFile>, r: Release) {
    && ProperTree(files) && NoManifestAmong(files) && PrintablePaths(files)
    && AllStorable(Staged(sha, files, r)) && |Archive(Staged(sha, files, r))| < MAX_DECOMPRESSED
    && r.platform == PLATFORM_TAG && IsVersionText(r.fwVersion) && |r.fwVersion| <= FW_VERSION_SIZE
    && !Misleads(r.buildDate) && !Misleads(r.gitCommit)
  }

  /** A device with the right keys and a version that welcomes the package it is given. */
  ghost predicate Awaits(s: State, inv: Invocation, t: Toolchain, files: seq<SourceFile>, r: Release)
    requires Shippable(t.sha, files, r)
  {
    && Pack(t, files, r) == Some(inv.package) && DeviceSplit(inv.package).Some?
    && Paired(t, inv.env, Archive(Staged(t.sha, files, r)))
    && var x := DeviceSplit(inv.package).value;
    && inv.env.verifies(x.signedData, t.sign(x.signedData))
    && VersionSeen(s, inv.env).Some? && Welcome(inv, VersionOf(r.fwVersion), VersionSeen(s, inv.env).value)
    && inv.env.freeSpace.Some? && |x.payload| <= inv.env.freeSpace.value
  }

  /** The install directory exists and has a place for every file. */
  ghost predicate HasRoom(s: State, files: seq<SourceFile>) {
    IsDirectory(s.disk.nodes, Resolve(INSTALL_DIR)) && FitsInto(s.disk.nodes, Resolve(INSTALL_DIR), files)
  }

  lemma ShippableIsStageable(sha: bytes -> Digest, files: seq<SourceFile>, r: Release)
    requires Shippable(sha, files, r)
    ensures Stageable(sha, files, r)
  {
    hide ProperTree, NoManifestAmong, PrintablePaths, AllStorable, Archive, Staged, Misleads, IsVersionText;
    VersionTextIsPlain(r.fwVersion);
    PlatformTagIsPlain();
  }

  /** A device that awaits a package opens it, down to the compressed archive. */
  lemma AwaitedIsOpened(s: State, inv: Invocation, t: Toolchain, files: seq<SourceFile>, r: Release)
    requires Shippable(t.sha, files, r) && Awaits(s, inv, t, files, r)
    ensures Candidate(inv) == Some(VersionOf(r.fwVersion))
    ensures Openable(s, inv) && Decrypted(inv) == Some(t.compress(Archive(Staged(t.sha, files, r))))
    ensures OpenedDisk(s, inv).nodes == s.disk.nodes
  {
    hide ProperTree, NoManifestAmong, PrintablePaths, AllStorable, Archive, Staged, Misleads, IsVersionText, VersionOf,
      Inflates, Pack, DeviceSplit, VersionSeen, Permitted, HeaderCheck, HeaderFields, Candidate, Welcome, Admitted;
    PackedIsAdmitted(s, inv, t, files, r);
    PackedSections(t, files, r, inv.package);
  }

  /** End to end: a tree of files, packed and handed to a device that awaits it, is installed over whatever
      the install directory holds: the old tree is left with exactly these files set, and an empty directory
      with exactly these files in it. The exit is 0 and the version recorded, if the version write works. */
  lemma PackedFilesAreInstalled(s: State, inv: Invocation, t: Toolchain, files: seq<SourceFile>, r: Release)
    requires Shippable(t.sha, files, r) && Awaits(s, inv, t, files, r)
    requires HasRoom(s, files) && Faultless(inv.env.host.io)
    ensures var run, base := Run(s, inv), Resolve(INSTALL_DIR);
            && Installs(s, inv)
            && Overlaid(s.disk.nodes, run.state.disk.nodes, base, files, |files|)
            && (EmptyDirectory(s.disk.nodes, base) ==> ExactlyInstalled(run.state.disk.nodes, base, files))
            && (inv.env.versionFault == NoFault ==>
                  run.exit == EXIT_SUCCESS && Stored(run.state) == Some(VersionOf(r.fwVersion)))
  {
    ShippableIsStageable(t.sha, files, r);
    AwaitedIsOpened(s, inv, t, files, r);
    assert Paired(t, inv.env, Archive(Staged(t.sha, files, r)));
    hide Shippable, Stageable, Awaits, Archive, Staged, VersionOf, IsVersionText, Inflates, Openable, Resolve, FitsInto,
      Overlaid, ExactlyInstalled, EmptyDirectory, Extract, Faultless, Run, Stored, Decrypted, OpenedDisk, Candidate;
    assert |INSTALL_DIR| == 24;
    var plaintext := t.compress(Archive(Staged(t.sha, files, r)));
    ExtractRestoresFiles(inv.env.host, OpenedDisk(s, inv), INSTALL_DIR, plaintext, files, r);
    RunRecordsVersion(s, inv);
    InstallingDisk(s, inv);
  }

  /** The tree after a run of an openable package is what extracting its payload makes of it. */
  lemma InstallingDisk(s: State, inv: Invocation)
    requires Openable(s, inv) && Decrypted(inv).Some?
    ensures var e := Extract(inv.env.host, OpenedDisk(s, inv), INSTALL_DIR, Decrypted(inv).value);
            && Run(s, inv).state.disk.nodes == e.disk.nodes
            && (e.code != InstallOk ==> Run(s, inv).state.versionFile == s.versionFile)
  {
    hide Admitted, OpenPackage, Openable, Extract, VersionText, Decrypted, Candidate, OpenedDisk;
    OpenableIsCandidate(s, inv);
    OpenableOpens(s, inv);
  }

  // ---- Failing and trying again ----

  /** The same invocation, meeting these faults while it writes files and version. */
  function WithFaults(inv: Invocation, io: FaultPlan, fault: Fault): Invocation {
    inv.(env := inv.env.(host := inv.env.host.(io := io), versionFault := fault))
  }

  lemma FaultsLeaveAwaiting(s: State, inv: Invocation, io: FaultPlan, fault: Fault, t: Toolchain,
      files: seq<SourceFile>, r: Release)
    requires Shippable(t.sha, files, r) && Awaits(s, inv, t, files, r)
    ensures Awaits(s, WithFaults(inv, io, fault), t, files, r)
  {
    hide Shippable, Archive, Staged, VersionOf, IsVersionText, Complete, AllocatesUpTo, DeviceSplit, InstalledVersion,
      Pack;
  }

  /** Of the state, only the version seen matters to whether a device awaits a package. */
  lemma AwaitsBySeen(s: State, s': State, inv: Invocation, t: Toolchain, files: seq<SourceFile>, r: Release)
    requires Shippable(t.sha, files, r) && Awaits(s, inv, t, files, r)
    requires VersionSeen(s', inv.env).Some? && Welcome(inv, VersionOf(r.fwVersion), VersionSeen(s', inv.env).value)
    ensures Awaits(s', inv, t, files, r)
  {
    hide Shippable, Archive, Staged, VersionOf, IsVersionText, Inflates, DeviceSplit, VersionSeen, Welcome, Pack;
  }

  /** An awaited package leaves, whatever its faults, a tree partly or fully installed. */
  lemma AwaitedIsPartial(s: State, inv: Invocation, t: Toolchain, files: seq<SourceFile>, r: Release)
    requires Shippable(t.sha, files, r) && Awaits(s, inv, t, files, r)
    ensures Partly(s.disk.nodes, Run(s, inv).state.disk.nodes, Resolve(INSTALL_DIR), files)
  {
    AwaitedIsOpened(s, inv, t, files, r);
    assert Paired(t, inv.env, Archive(Staged(t.sha, files, r)));
    assert Packable(t.sha, files, r);
    hide Shippable, Packable, Awaits, Archive, Staged, VersionOf, IsVersionText, Openable, Resolve, Partly, Extract,
      Run, Decrypted, OpenedDisk, Candidate, Streams, Overlaid, AllocatesUpTo;
    assert |INSTALL_DIR| == 24;
    var plaintext := t.compress(Archive(Staged(t.sha, files, r)));
    ExtractIsPartial(inv.env.host, OpenedDisk(s, inv), INSTALL_DIR, plaintext, files, r);
    InstallingDisk(s, inv);
  }

  lemma FaultsLeaveOpening(s: State, inv: Invocation, io: FaultPlan, fault: Fault)
    requires Openable(s, WithFaults(inv, io, fault)) && Decrypted(WithFaults(inv, io, fault)).Some?
    ensures Openable(s, inv) && Decrypted(inv) == Decrypted(WithFaults(inv, io, fault))
    ensures OpenedDisk(s, inv) == OpenedDisk(s, WithFaults(inv, io, fault))
  {
    hide DeviceSplit, HeaderCheck, HeaderFields, ParseVersion, InstalledVersion, PlatformTagMatches;
  }

  /** A run that installs although faults were possible met none, and leaves the undisturbed tree. */
  lemma InstallingIsUndisturbed(s: State, inv: Invocation, io: FaultPlan, fault: Fault)
    requires Faultless(inv.env.host.io) && Installs(s, WithFaults(inv, io, fault))
    ensures Run(s, WithFaults(inv, io, fault)).state.disk.nodes == Run(s, inv).state.disk.nodes
  {
    var faulty := WithFaults(inv, io, fault);
    hide Openable, Decrypted, OpenedDisk, Extract, Run, Faultless;
    FaultsLeaveOpening(s, inv, io, fault);
    assert DeviceSplit(faulty.package).Some? by { OpenableIsCandidate(s, faulty); }
    assert faulty.env.host.(io := inv.env.host.io) == inv.env.host;
    ExtractWithoutFault(faulty.env.host, inv.env.host.io, OpenedDisk(s, faulty), INSTALL_DIR, Decrypted(faulty).value);
    InstallingDisk(s, inv);
    InstallingDisk(s, faulty);
  }

  /** The version that the next invocation sees after a run that did not exit 0. */
  lemma SeenAfterFailure(s: State, inv: Invocation)
    requires Run(s, inv).exit != 0
    ensures Installs(s, inv) ==> Candidate(inv).Some?
    ensures VersionSeen(Run(s, inv).state, inv.env)
         == if Installs(s, inv) && inv.env.versionFault.Short? && inv.env.versionReadable
            then TornVersion(Candidate(inv).value, inv.env.versionFault.n)
            else VersionSeen(s, inv.env)
  {
    hide Run, Installs, Candidate, InstalledVersion, TornVersion;
    RunRecordsVersion(s, inv);
  }

  /** How a repeated invocation exits: 0, unless the first one installed and its version write was torn where
      the file still reads as the package's version, or no longer reads as any. */
  ghost function RepeatedExit(s: State, first: Invocation): nat
    requires Candidate(first).Some?
  {
    if !(Installs(s, first) && first.env.versionFault.Short? && first.env.versionReadable) then EXIT_SUCCESS
    else
      match TornVersion(Candidate(first).value, first.env.versionFault.n)
      case None => EXIT_GENERIC_FAILURE
      case Some(v) => if v == Candidate(first).value then EXIT_UP_TO_DATE else EXIT_SUCCESS
  }

  /** Repeating a failed update, whatever faults stopped it and wherever, the version write included: the
      exit of the second, undisturbed run is known exactly; and the device ends with the tree and the version
      of an undisturbed update if and only if a torn version write has not left the file unreadable, in
      which case nothing changes any more. */
  lemma RepeatingCuresFailure(s: State, inv: Invocation, io: FaultPlan, fault: Fault, t: Toolchain,
      files: seq<SourceFile>, r: Release)
    requires Shippable(t.sha, files, r) && Awaits(s, inv, t, files, r)
    requires HasRoom(s, files) && Faultless(inv.env.host.io) && inv.env.versionFault == NoFault
    requires Run(s, WithFaults(inv, io, fault)).exit != 0
    ensures Candidate(inv) == Candidate(WithFaults(inv, io, fault)) == Some(VersionOf(r.fwVersion))
    ensures var faulty := WithFaults(inv, io, fault);
            var failed, undisturbed := Run(s, faulty).state, Run(s, inv).state;
            var again := Run(failed, inv);
            && again.exit == RepeatedExit(s, faulty)
            && (again.state.disk.nodes == undisturbed.disk.nodes && Stored(again.state) == Stored(undisturbed)
                <==> RepeatedExit(s, faulty) != EXIT_GENERIC_FAILURE)
            && (RepeatedExit(s, faulty) == EXIT_GENERIC_FAILURE ==> again.state == failed && Stored(failed).None?)
  {
    var faulty := WithFaults(inv, io, fault);
    var failed := Run(s, faulty).state;
    FaultsLeaveAwaiting(s, inv, io, fault, t, files, r);
    AwaitedIsOpened(s, inv, t, files, r);
    AwaitedIsOpened(s, faulty, t, files, r);
    PackedFilesAreInstalled(s, inv, t, files, r);
    SeenAfterFailure(s, faulty);
    var cand := VersionOf(r.fwVersion);
    if Installs(s, faulty) && fault.Short? && inv.env.versionReadable {
      var torn := TornVersion(cand, fault.n);
      if torn.None? {
        RepeatedIsRefused(s, failed, inv);
      } else if torn.value == cand {
        RepeatedIsUpToDate(s, failed, inv);
        InstallingIsUndisturbed(s, inv, io, fault);
      } else {
        LowerIsOlder(torn.value, cand);
        AwaitsBySeen(s, failed, inv, t, files, r);
        RepeatedIsInstalled(s, inv, io, fault, t, files, r);
      }
    } else {
      hide Run, Shippable, Installs, VersionOf, IsVersionText, Stored, Candidate, HasRoom, Overlaid, EmptyDirectory,
        Faultless;
      AwaitsBySeen(s, failed, inv, t, files, r);
      RepeatedIsInstalled(s, inv, io, fault, t, files, r);
    }
  }

  lemma LowerIsOlder(v: Version, w: Version)
    requires Number(v) <= Number(w) && v != w
    ensures Number(v) < Number(w)
  {
    if Number(v) == Number(w) {
      NumberIsInjective(v, w);
    }
  }

  /** Where the device still awaits the package, repeating installs it over what the failure left. */
  lemma RepeatedIsInstalled(s: State, inv: Invocation, io: FaultPlan, fault: Fault, t: Toolchain,
      files: seq<SourceFile>, r: Release)
    requires Shippable(t.sha, files, r) && Awaits(s, inv, t, files, r)
    requires HasRoom(s, files) && Faultless(inv.env.host.io) && inv.env.versionFault == NoFault
    requires Awaits(Run(s, WithFaults(inv, io, fault)).state, inv, t, files, r)
    ensures var again := Run(Run(s, WithFaults(inv, io, fault)).state, inv);
            && again.exit == 0 && again.state.disk.nodes == Run(s, inv).state.disk.nodes
            && Stored(again.state) == Some(VersionOf(r.fwVersion))
  {
    var faulty, base := WithFaults(inv, io, fault), Resolve(INSTALL_DIR);
    var failed := Run(s, faulty).state;
    FaultsLeaveAwaiting(s, inv, io, fault, t, files, r);
    AwaitedIsPartial(s, faulty, t, files, r);
    assert ProperTree(files);
    hide Shippable, Awaits, Run, Resolve, FitsInto, Overlaid, Partly, ProperTree, Installs, VersionOf, IsVersionText,
      Faultless, EmptyDirectory, Stored;
    PartialStillFits(s.disk.nodes, failed.disk.nodes, base, files);
    PackedFilesAreInstalled(s, inv, t, files, r);
    PackedFilesAreInstalled(failed, inv, t, files, r);
    OverlaysAgree(s.disk.nodes, failed.disk.nodes, Run(s, inv).state.disk.nodes, Run(failed, inv).state.disk.nodes,
        base, files);
  }

  lemma RepeatedIsRefused(s: State, failed: State, inv: Invocation)
    requires Openable(s, inv) && inv.env.versionReadable && VersionSeen(failed, inv.env).None?
    ensures Run(failed, inv).exit == EXIT_GENERIC_FAILURE && Run(failed, inv).state == failed
    ensures Stored(failed).None?
  {
    hide HeaderCheck, HeaderFields, ParseVersion, InstalledVersion, DeviceSplit;
    assert Admitted(failed, inv) == Refuse(EXIT_GENERIC_FAILURE);
  }

  lemma RepeatedIsUpToDate(s: State, failed: State, inv: Invocation)
    requires Openable(s, inv) && Candidate(inv).Some? && VersionSeen(failed, inv.env) == Candidate(inv)
    ensures Run(failed, inv) == RunResult(EXIT_UP_TO_DATE, failed)
    ensures inv.env.versionReadable ==> Stored(failed) == Candidate(inv)
  {
    hide HeaderCheck, HeaderFields, ParseVersion, InstalledVersion, DeviceSplit;
    assert Admitted(failed, inv) == Refuse(EXIT_UP_TO_DATE);
  }

  // ---- Only released files reach the device ----

  /** One run of the packager. */
  datatype Issue = Issue(tools: Toolchain, files: seq<SourceFile>, release: Release)

  ghost predicate IsIssued(i: Issue, package: bytes) {
    && AllStorable(Staged(i.tools.sha, i.files, i.release))
    && Pack(i.tools, i.files, i.release) == Some(package)
  }

  /** The bytes that the signature of this issue covers. */
  ghost predicate Signs(i: Issue, signed: bytes) {
    exists package ::
      IsIssued(i, package) && DeviceSplit(package).Some? && DeviceSplit(package).value.signedData == signed
  }

  /** The device's public key accepts nothing but what was signed for one of these issues. */
  ghost predicate Genuine(env: Environment, issues: seq<Issue>) {
    forall m, signature | env.verifies(m, signature) :: exists k :: 0 <= k < |issues| && Signs(issues[k], m)
  }

  /** What the device makes of the sections of an issue is, where it is anything, what the packager put in. */
  ghost predicate Opens(env: Environment, i: Issue)
    requires AllStorable(Staged(i.tools.sha, i.files, i.release))
  {
    var t := i.tools;
    var tar := Archive(Staged(t.sha, i.files, i.release));
    var plaintext := t.compress(tar);
    && env.host.sha == t.sha
    && env.unwrap(t.wrap(t.aesKey)) in {None, Some(t.aesKey)}
    && env.decrypt(t.aesKey, t.iv, t.encrypt(t.aesKey, t.iv, plaintext)) in {None, Some(plaintext)}
    && Streams(env.host.inflater(plaintext), tar)
  }

  ghost predicate AllOpen(env: Environment, issues: seq<Issue>) {
    forall k | 0 <= k < |issues| ::
      Packable(issues[k].tools.sha, issues[k].files, issues[k].release) && Opens(env, issues[k])
  }

  /** The run wrote nothing but a part, or all, of this issue's files; if it installed, all of them, and the
      version it went on to record is the issue's. */
  ghost predicate CameFrom(i: Issue, s: State, inv: Invocation, s': State) {
    var base := Resolve(INSTALL_DIR);
    && Partly(s.disk.nodes, s'.disk.nodes, base, i.files)
    && (Installs(s, inv) && IsDirectory(s.disk.nodes, base) ==>
          Overlaid(s.disk.nodes, s'.disk.nodes, base, i.files, |i.files|))
    && (IsVersionText(i.release.fwVersion) ==> Candidate(inv) == Some(VersionOf(i.release.fwVersion)))
  }

  /** Authenticity: if the device's key accepts only what was signed for these issues, then any run, on any
      package and under any faults, writes nothing, or only files of one of them. */
  lemma OnlyReleasesAreInstalled(s: State, inv: Invocation, issues: seq<Issue>)
    requires Genuine(inv.env, issues) && AllOpen(inv.env, issues)
    ensures var s' := Run(s, inv).state;
            Untouched(s, s') || exists k :: 0 <= k < |issues| && CameFrom(issues[k], s, inv, s')
  {
    hide Run, Untouched, CameFrom, Authorised, Signs, Opens, Packable;
    RunIsGated(s, inv);
    if !Untouched(s, Run(s, inv).state) {
      TouchingOpens(s, inv);
      var x := DeviceSplit(inv.package).value;
      var k :| 0 <= k < |issues| && Signs(issues[k], x.signedData);
      OpenedCameFrom(s, inv, issues[k]);
    }
  }

  lemma TouchingOpens(s: State, inv: Invocation)
    requires !Untouched(s, Run(s, inv).state)
    ensures Openable(s, inv) && Decrypted(inv).Some?
    ensures inv.env.verifies(DeviceSplit(inv.package).value.signedData, DeviceSplit(inv.package).value.signature)
  {
    hide Extract, VersionText, Untouched, Openable, Decrypted;
    SameIsUntouched(s);
    match Admitted(s, inv) {
      case Refuse(_) =>
      case Admit(x, version) =>
        ClosedIsUntouched(s, inv.env, x);
        assert OpenPackage(inv.env, s.disk, x).Plaintext?;
        hide Admitted;
        OnlyOpenableOpens(s, inv);
    }
  }

  /** A package that carries an issue's signed bytes is that issue, up to its signature. */
  lemma SignedIsIssued(package: bytes, i: Issue, issued: bytes)
    requires IsIssued(i, issued) && DeviceSplit(package).Some? && DeviceSplit(issued).Some?
    requires DeviceSplit(package).value.signedData == DeviceSplit(issued).value.signedData
    ensures var x, t := DeviceSplit(package).value, i.tools;
            && x.header.iv == t.iv && x.wrappedKey == t.wrap(t.aesKey)
            && x.payload == t.encrypt(t.aesKey, t.iv, t.compress(Archive(Staged(t.sha, i.files, i.release))))
    ensures package[..HEADER_SIZE] == issued[..HEADER_SIZE]
    ensures HeaderCheck(issued) == HeaderOk && |i.release.fwVersion| <= FW_VERSION_SIZE
    ensures HeaderFields(issued).fwVersion
         == i.release.fwVersion + Zeros(FW_VERSION_SIZE - |i.release.fwVersion|)
  {
    hide Archive, Staged, AllStorable, Pack, DeviceSplit, HeaderCheck, HeaderFields;
    SignedDataIsUnique(package, issued);
    PackedSections(i.tools, i.files, i.release, issued);
  }

  lemma IssuedVersion(inv: Invocation, i: Issue, issued: bytes)
    requires IsIssued(i, issued) && DeviceSplit(inv.package).Some? && DeviceSplit(issued).Some?
    requires DeviceSplit(inv.package).value.signedData == DeviceSplit(issued).value.signedData
    requires IsVersionText(i.release.fwVersion)
    ensures Candidate(inv) == Some(VersionOf(i.release.fwVersion))
  {
    hide Archive, Staged, AllStorable, Pack, IsVersionText, VersionOf;
    SignedIsIssued(inv.package, i, issued);
    SameHeaderFields(inv.package, issued);
    hide HeaderFields;
    VersionTextIsPlain(i.release.fwVersion);
    CStringStops(i.release.fwVersion, Zeros(FW_VERSION_SIZE - |i.release.fwVersion|));
  }

  lemma OpenedCameFrom(s: State, inv: Invocation, i: Issue)
    requires Openable(s, inv) && Decrypted(inv).Some?
    requires Signs(i, DeviceSplit(inv.package).value.signedData)
    requires Packable(i.tools.sha, i.files, i.release) && Opens(inv.env, i)
    ensures CameFrom(i, s, inv, Run(s, inv).state)
  {
    var t := i.tools;
    var issued :| IsIssued(i, issued) && DeviceSplit(issued).Some?
      && DeviceSplit(issued).value.signedData == DeviceSplit(inv.package).value.signedData;
    var plaintext := t.compress(Archive(Staged(t.sha, i.files, i.release)));
    SignedIsIssued(inv.package, i, issued);
    if IsVersionText(i.release.fwVersion) {
      IssuedVersion(inv, i, issued);
    }
    assert Decrypted(inv) == Some(plaintext);
    hide Archive, Staged, Packable, Openable, Decrypted, OpenedDisk, Extract, Run, Resolve, Partly, Overlaid, Streams,
      IsVersionText, VersionOf, DeviceSplit, IsIssued;
    assert |INSTALL_DIR| == 24;
    ExtractIsPartial(inv.env.host, OpenedDisk(s, inv), INSTALL_DIR, plaintext, i.files, i.release);
    InstallingDisk(s, inv);
    OpenedNodes(s, inv);
  }

  lemma OpenedNodes(s: State, inv: Invocation)
    requires DeviceSplit(inv.package).Some? && Decrypted(inv).Some?
    ensures OpenedDisk(s, inv).nodes == s.disk.nodes
  {
    hide DeviceSplit;
  }

  /** Every place is as it was, or holds what an issue puts there. */
  ghost predicate OnlyIssued(before: Nodes, after: Nodes, issues: seq<Issue>) {
    forall at ::
      || Seen(after, at) == Seen(before, at)
      || exists k :: 0 <= k < |issues| && Marked(Resolve(INSTALL_DIR), issues[k].files, at, Seen(after, at))
  }

  /** And over every history: whatever packages a device is given, and whatever fails, each place of its tree
      is as it was, or a directory on the way to an issued file, or the start of an issued file at its place. */
  lemma {:induction false} HistoryIsAuthentic(s: State, visits: seq<Invocation>, issues: seq<Issue>)
    requires forall k | 0 <= k < |visits| :: Genuine(visits[k].env, issues) && AllOpen(visits[k].env, issues)
    ensures OnlyIssued(s.disk.nodes, After(s, visits).disk.nodes, issues)
  {
    hide Run, Genuine, AllOpen, Marked, Resolve, Untouched, CameFrom;
    if visits != [] {
      var last := |visits| - 1;
      var before := After(s, visits[..last]);
      HistoryIsAuthentic(s, visits[..last], issues);
      OnlyReleasesAreInstalled(before, visits[last], issues);
      StepIsAuthentic(before, visits[last], issues);
    }
  }

  lemma StepIsAuthentic(s: State, inv: Invocation, issues: seq<Issue>)
    requires var s' := Run(s, inv).state;
             Untouched(s, s') || exists k :: 0 <= k < |issues| && CameFrom(issues[k], s, inv, s')
    ensures OnlyIssued(s.disk.nodes, Run(s, inv).state.disk.nodes, issues)
  {
    hide Run, Marked, Resolve, Overlaid, Installs, IsVersionText, VersionOf, Candidate;
  }

  // ---- The hypotheses can be met ----

  /** A tree within these limits on its contents and paths is shippable, whatever it holds. */
  lemma ModestTreesAreShippable(sha: bytes -> Digest, files: seq<SourceFile>, r: Release)
    requires ProperTree(files) && NoManifestAmong(files) && PrintablePaths(files)
    requires AllStorable(files) && Footprint(files) + TextsSize(r) + OVERHEAD < MAX_DECOMPRESSED
    requires r.platform == PLATFORM_TAG && IsVersionText(r.fwVersion) && |r.fwVersion| <= FW_VERSION_SIZE
    requires !Misleads(r.buildDate) && !Misleads(r.gitCommit)
    ensures Shippable(sha, files, r)
  {
    hide ProperTree, NoManifestAmong, PrintablePaths, AllStorable, Archive, Staged, Misleads, IsVersionText, DataSize,
      ListingSize, TextsSize;
    PowersOf8();
    hide PowerOf8;
    ArchiveSize(sha, files, r);
  }

  /** An inflater for payloads that are stored uncompressed. */
  ghost function Storing(plaintext: bytes): Inflater {
    DeliveringIsComplete(plaintext, true);
    Delivering(plaintext, true)
  }

  ghost function PlainToolchain(sha: bytes -> Digest): Toolchain {
    Toolchain(sha, tar => tar, (key, iv, m) => m, key => key, m => Zeros(SIGNATURE_SIZE), Zeros(AES_KEY_SIZE),
        Zeros(IV_SIZE))
  }

  /** A device that undoes the plain toolchain, with so much free space, and only the version file at fault. */
  ghost function PlainEnvironment(sha: bytes -> Digest, free: nat, readable: bool, fault: Fault): Environment {
    var host := Host(sha, plaintext => Storing(plaintext), n => n <= MAX_OBJECT, n => NoFault);
    Environment(host, (m, signature) => true, key => Some(key), (key, iv, m) => Some(m), Some(free), true, true,
        readable, fault)
  }

  lemma PlainIsPaired(sha: bytes -> Digest, free: nat, readable: bool, fault: Fault, tar: bytes)
    requires tar != []
    ensures Paired(PlainToolchain(sha), PlainEnvironment(sha, free, readable, fault), tar)
  {
    DeliveringIsComplete(tar, true);
    assert Complete(Storing(tar), tar);
    hide Complete, Storing;
  }

  lemma PlainPacks(sha: bytes -> Digest, files: seq<SourceFile>, r: Release)
    requires Shippable(sha, files, r)
    ensures Pack(PlainToolchain(sha), files, r).Some?
  {
    hide ProperTree, NoManifestAmong, PrintablePaths, AllStorable, Archive, Staged, Misleads, IsVersionText;
    VersionTextIsPlain(r.fwVersion);
    BuiltPlain(r.fwVersion);
  }

  lemma BuiltPlain(fwVersion: bytes)
    requires IsAscii(fwVersion) && |fwVersion| <= FW_VERSION_SIZE
    ensures var h := BuildHeader(PLATFORM_TAG, fwVersion, Zeros(IV_SIZE), AES_KEY_SIZE);
            h.Some? && |h.value| == HEADER_SIZE
  {
    PlatformTagIsPlain();
    assert IsAscii(PLATFORM_TAG);
    assert |MAGIC| == 4;
  }

  lemma ArchiveIsNotEmpty(files: seq<SourceFile>)
    requires AllStorable(files)
    ensures Archive(files) != []
  {
    hide Body, Storable;
    assert |Archive(files)| >= |Zeros(2 * BLOCK_SIZE)|;
  }

  /** Versions the plain device welcomes: newer than what it sees, or older with the secret at hand. */
  ghost predicate Acceptable(candidate: Version, installed: Version, readable: bool, withSecret: bool) {
    var seen := Number(if readable then installed else NO_VERSION);
    Number(candidate) > seen || (Number(candidate) < seen && withSecret)
  }

  /** The theorems are not empty: for every shippable release, every installed version, with or without the
      secret, with the version file at fault or not, there are a packager and a device that meet the
      hypotheses, wherever the version rule allows it. */
  lemma EveryReleaseHasItsDevice(sha: bytes -> Digest, files: seq<SourceFile>, r: Release, installed: Version,
      readable: bool, withSecret: bool, fault: Fault)
    returns (s: State, inv: Invocation, t: Toolchain)
    requires Shippable(sha, files, r) && Acceptable(VersionOf(r.fwVersion), installed, readable, withSecret)
    ensures t.sha == sha && Awaits(s, inv, t, files, r) && HasRoom(s, files) && Faultless(inv.env.host.io)
    ensures EmptyDirectory(s.disk.nodes, Resolve(INSTALL_DIR)) && Stored(s) == Some(installed)
    ensures inv.env.versionReadable == readable && inv.env.versionFault == fault && (inv.secret.None? <==> !withSecret)
  {
    hide ProperTree, NoManifestAmong, PrintablePaths, AllStorable, Archive, Staged, Misleads, IsVersionText, VersionOf,
      Resolve, Paired, Pack, DeviceSplit, VersionText, InstalledVersion, FitsInto;
    t := PlainToolchain(sha);
    PlainPacks(sha, files, r);
    var package := Pack(t, files, r).value;
    PackedSections(t, files, r, package);
    var free := |DeviceSplit(package).value.payload|;
    var secret: bytes := [1];
    inv := Invocation(package, if withSecret then Some(secret) else None, Some(sha(secret)),
        PlainEnvironment(sha, free, readable, fault));
    s := State(Some(VersionText(installed)), Disk(map[Resolve(INSTALL_DIR) := Directory], []));
    VersionFileRoundTrip(installed);
    NoFileIsNoVersion();
    ArchiveIsNotEmpty(Staged(sha, files, r));
    PlainIsPaired(sha, free, readable, fault, Archive(Staged(sha, files, r)));
    EmptyHasRoom(s.disk.nodes, Resolve(INSTALL_DIR), files);
  }

  lemma NoFileIsNoVersion()
    ensures InstalledVersion(None) == Some(NO_VERSION)
  {
  }

  // ---- The ways to lose a version are real ----

  /** With the secret, every shippable release older than what is installed can be put on a device. */
  lemma SecretLowers(sha: bytes -> Digest, files: seq<SourceFile>, r: Release, installed: Version)
    returns (s: State, inv: Invocation)
    requires Shippable(sha, files, r) && Number(VersionOf(r.fwVersion)) < Number(installed)
    ensures Stored(s) == Some(installed) && inv.env.versionReadable && inv.secret.Some?
    ensures Run(s, inv).exit == 0 && Lowered(s, Run(s, inv).state)
  {
    hide Shippable, Awaits, Run, HasRoom, Faultless, VersionOf, IsVersionText, Installs, Overlaid, EmptyDirectory,
      Stored;
    var t;
    s, inv, t := EveryReleaseHasItsDevice(sha, files, r, installed, true, true, NoFault);
    PackedFilesAreInstalled(s, inv, t, files, r);
  }

  /** Without any secret, the same happens when the version file cannot be opened. */
  lemma UnopenableFileLowers(sha: bytes -> Digest, files: seq<SourceFile>, r: Release, installed: Version)
    returns (s: State, inv: Invocation)
    requires Shippable(sha, files, r) && 0 < Number(VersionOf(r.fwVersion)) < Number(installed)
    ensures Stored(s) == Some(installed) && !inv.env.versionReadable && inv.secret.None?
    ensures Run(s, inv).exit == 0 && Lowered(s, Run(s, inv).state)
  {
    hide Shippable, Awaits, Run, HasRoom, Faultless, VersionOf, IsVersionText, Installs, Overlaid, EmptyDirectory,
      Stored;
    var t;
    s, inv, t := EveryReleaseHasItsDevice(sha, files, r, installed, false, false, NoFault);
    PackedFilesAreInstalled(s, inv, t, files, r);
  }

  /** Without any secret and on an upgrade, a version write cut inside the first three parts leaves no
      readable version, and from then on the device installs nothing as long as the file can be opened. */
  lemma TornUpgradeLocksOut(sha: bytes -> Digest, files: seq<SourceFile>, r: Release, installed: Version, n: nat)
    returns (s: State, inv: Invocation)
    requires Shippable(sha, files, r) && Number(VersionOf(r.fwVersion)) > Number(installed)
    requires 1 <= n <= LastPartAt(VersionOf(r.fwVersion))
    ensures Stored(s) == Some(installed) && inv.env.versionReadable && inv.secret.None?
    ensures var torn := Run(s, inv).state;
            && Run(s, inv).exit == 1 && Lowered(s, torn) && Stored(torn).None?
            && forall visits: seq<Invocation> | forall k | 0 <= k < |visits| :: visits[k].env.versionReadable ::
                 After(torn, visits) == torn
  {
    hide Shippable, Awaits, Run, HasRoom, Faultless, VersionOf, IsVersionText, Installs, Overlaid, EmptyDirectory,
      Stored, LastPartAt, Candidate;
    var t;
    s, inv, t := EveryReleaseHasItsDevice(sha, files, r, installed, true, false, Short(n));
    AwaitedIsOpened(s, inv, t, files, r);
    PackedFilesAreInstalled(s, inv, t, files, r);
    TornWriteForgetsVersion(s, inv, n);
    var torn := Run(s, inv).state;
    forall visits: seq<Invocation> | forall k | 0 <= k < |visits| :: visits[k].env.versionReadable
      ensures After(torn, visits) == torn
    {
      UnreadableVersionLocksOut(torn, visits);
    }
  }
}
