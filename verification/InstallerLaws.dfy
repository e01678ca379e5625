/** Confinement of every write, and what an installation makes of the tree it finds. */
module InstallerLaws {
  import opened Bytes
  import opened Paths
  import opened Results
  import opened Decompression
  import opened TarFormat
  import opened TarWriter
  import opened TarLaws
  import opened ManifestFormat
  import opened ManifestCheck
  import opened Disks
  import opened Installer

  // ---- Confinement ----

  /** The path lies under `dir`, and at no intermediate component does it lead out. */
  ghost predicate Confined(dir: bytes, path: bytes) {
    exists rel :: path == Under(dir, rel) && StaysInside(Resolve(dir), Split(rel, SLASH))
  }

  ghost predicate ConfinedEvent(dir: bytes, e: Event) {
    match e
    case MakeDirectory(path) => Confined(dir, path)
    case OpenForWriting(path) => Confined(dir, path)
    case _ => true
  }

  /** Everything done between the two disks happened under `dir`. */
  ghost predicate ConfinedWork(dir: bytes, d: Disk, d': Disk) {
    && TouchesOnly(d, d', Resolve(dir))
    && forall i | |d.log| <= i < |d'.log| :: ConfinedEvent(dir, d'.log[i])
  }

  lemma ConfinedPrefix(dir: bytes, rel: bytes, j: nat)
    requires SafePath(rel)
    requires j == |rel| || (j < |rel| && rel[j] == SLASH)
    ensures Confined(dir, Under(dir, rel[..j]))
    ensures Resolve(dir) <= Resolve(Under(dir, rel[..j]))
  {
    hide Resolve, Under;
    SafePathStaysInside(Resolve(dir), rel, j);
    ResolveUnder(dir, rel[..j]);
    var components := Split(rel[..j], SLASH);
    assert components[..|components|] == components;
  }

  lemma ConfinedWorkNone(dir: bytes, d: Disk)
    ensures ConfinedWork(dir, d, d)
  {
  }

  lemma ConfinedWorkTransitive(dir: bytes, d: Disk, d': Disk, d'': Disk)
    requires ConfinedWork(dir, d, d') && ConfinedWork(dir, d', d'')
    ensures ConfinedWork(dir, d, d'')
  {
    TouchesOnlyTransitive(d, d', d'', Resolve(dir));
    forall i | |d.log| <= i < |d''.log| ensures ConfinedEvent(dir, d''.log[i]) {
      if i < |d'.log| {
        assert d''.log[i] == d'.log[i];
      }
    }
  }

  lemma {:induction false} ParentsAreConfined(io: FaultPlan, d: Disk, dir: bytes, rel: bytes, j: nat)
    requires SafePath(rel) && j <= |rel|
    ensures ConfinedWork(dir, d, EnsureParents(io, d, dir, rel, j).disk)
    decreases |rel| - j
  {
    hide ConfinedWork, SafePath, Confined, Resolve, Under;
    if j == |rel| {
      ConfinedWorkNone(dir, d);
    } else if rel[j] != SLASH {
      ParentsAreConfined(io, d, dir, rel, j + 1);
    } else {
      var r := MakeDir(io, d, Under(dir, rel[..j]));
      ConfinedPrefix(dir, rel, j);
      MakeDirIsConfined(io, d, dir, Under(dir, rel[..j]));
      if r.ok {
        ParentsAreConfined(io, r.disk, dir, rel, j + 1);
        ConfinedWorkTransitive(dir, d, r.disk, EnsureParents(io, r.disk, dir, rel, j + 1).disk);
      }
    }
  }

  lemma MakeDirIsConfined(io: FaultPlan, d: Disk, dir: bytes, path: bytes)
    requires Confined(dir, path) && Resolve(dir) <= Resolve(path)
    ensures ConfinedWork(dir, d, MakeDir(io, d, path).disk)
  {
    hide Resolve, Confined;
    MakeDirTouches(io, d, path, Resolve(dir));
  }

  lemma WriteFileIsConfined(io: FaultPlan, d: Disk, dir: bytes, path: bytes, data: bytes)
    requires Confined(dir, path) && Resolve(dir) <= Resolve(path)
    ensures ConfinedWork(dir, d, WriteFile(io, d, path, data).disk)
  {
    hide Resolve, Confined, NamesFile;
    WriteFileTouches(io, d, path, data, Resolve(dir));
  }

  lemma EntryIsConfined(io: FaultPlan, d: Disk, dir: bytes, rel: bytes, data: bytes)
    requires SafePath(rel)
    ensures ConfinedWork(dir, d, WriteEntry(io, d, dir, rel, data).disk)
  {
    hide ConfinedWork, Confined, Resolve, EnsureParents, WriteFile, SafePath;
    ConfinedWorkNone(dir, d);
    if |Under(dir, rel)| < PATH_BUFFER {
      var r := EnsureParents(io, d, dir, rel, 0);
      ParentsAreConfined(io, d, dir, rel, 0);
      if r.ok {
        ConfinedPrefix(dir, rel, |rel|);
        assert rel[..|rel|] == rel;
        WriteFileIsConfined(io, r.disk, dir, Under(dir, rel), data);
        ConfinedWorkTransitive(dir, d, r.disk, WriteFile(io, r.disk, Under(dir, rel), data).disk);
      }
    }
  }

  ghost predicate AllPathsSafe(entries: seq<Entry>) {
    forall k | 0 <= k < |entries| :: SafePath(entries[k].path)
  }

  lemma {:induction false} InstallationIsConfined(io: FaultPlan, d: Disk, dir: bytes, tar: bytes,
      entries: seq<Entry>, i: nat)
    requires i <= |entries| && InBuffer(tar, entries) && AllPathsSafe(entries)
    ensures ConfinedWork(dir, d, InstallFrom(io, d, dir, tar, entries, i).disk)
    decreases |entries| - i
  {
    hide ConfinedWork, WriteEntry, SafePath;
    if i == |entries| {
      ConfinedWorkNone(dir, d);
    } else if !IsPayload(entries[i]) {
      InstallationIsConfined(io, d, dir, tar, entries, i + 1);
    } else {
      var r := WriteEntry(io, d, dir, entries[i].path, DataOf(tar, entries[i]));
      EntryIsConfined(io, d, dir, entries[i].path, DataOf(tar, entries[i]));
      if r.ok {
        InstallationIsConfined(io, r.disk, dir, tar, entries, i + 1);
        ConfinedWorkTransitive(dir, d, r.disk, InstallFrom(io, r.disk, dir, tar, entries, i + 1).disk);
      }
    }
  }

  lemma AcceptedPathsSafe(tar: bytes)
    requires |tar| < SIZE_MODULUS && ParseTar(tar).TarOk?
    ensures AllPathsSafe(ParseTar(tar).entries)
  {
    hide SafePath;
    EntriesAreInBounds(tar, 0);
    var entries := ParseTar(tar).entries;
    forall k | 0 <= k < |entries| ensures SafePath(entries[k].path) {
      assert WellPlaced(tar, entries[k]);
    }
  }

  /** Path confinement, on any plaintext and under any faults: every directory created and every file
      opened stays under the install directory at each component, and nothing else in the tree changes. */
  lemma ExtractIsConfined(host: Host, d: Disk, dir: bytes, plaintext: bytes)
    ensures ConfinedWork(dir, d, Extract(host, d, dir, plaintext).disk)
  {
    hide Gunzip, ParseTar, CheckManifest, InstallFrom, ConfinedWork, AllPathsSafe;
    ConfinedWorkNone(dir, d);
    var g := Gunzip(host.inflater(plaintext), host.alloc, MAX_DECOMPRESSED, |plaintext|);
    if g.Inflated? && Validate(host.sha, g.output) == InstallOk {
      var d' := Logged(d, ArchiveValidated(g.output));
      NoteIsConfined(dir, d, g.output);
      AcceptedPathsSafe(g.output);
      InstallationIsConfined(host.io, d', dir, g.output, ParseTar(g.output).entries, 0);
      ConfinedWorkTransitive(dir, d, d', InstallFrom(host.io, d', dir, g.output, ParseTar(g.output).entries, 0).disk);
    }
  }

  lemma NoteIsConfined(dir: bytes, d: Disk, tar: bytes)
    ensures ConfinedWork(dir, d, Logged(d, ArchiveValidated(tar)))
  {
  }

  /** Nothing is written unless everything validates: any other outcome leaves the disk as it was. */
  lemma RejectionLeavesDisk(host: Host, d: Disk, dir: bytes, plaintext: bytes)
    ensures var r := Extract(host, d, dir, plaintext);
            || r.disk == d
            || exists tar ::
                 && Gunzip(host.inflater(plaintext), host.alloc, MAX_DECOMPRESSED, |plaintext|) == Inflated(tar)
                 && Validate(host.sha, tar) == InstallOk
                 && r.code in {InstallOk, IoError}
                 && Logged(d, ArchiveValidated(tar)).log <= r.disk.log
  {
    hide Gunzip, ParseTar, CheckManifest, InstallFrom, AllPathsSafe;
    var g := Gunzip(host.inflater(plaintext), host.alloc, MAX_DECOMPRESSED, |plaintext|);
    if g.Inflated? && Validate(host.sha, g.output) == InstallOk {
      AcceptedPathsSafe(g.output);
      InstallationIsConfined(host.io, Logged(d, ArchiveValidated(g.output)), dir, g.output,
          ParseTar(g.output).entries, 0);
    }
  }

  // ---- What becomes of a payload, exactly ----

  /** The archive is a chain of entries up to a zero block, and one of them is a manifest that lists the
      others with their digests. */
  ghost predicate Accepted(sha: bytes -> Digest, tar: bytes) {
    exists entries, i: nat, records ::
      && Reads(tar, entries) && HoldsManifest(entries, i)
      && Lists(sha, tar, entries, DataOf(tar, entries[i]), records)
  }

  /** The archive is this chain of entries, up to a zero block. */
  ghost predicate Reads(tar: bytes, entries: seq<Entry>) {
    && Chain(tar, 0, entries) && InBuffer(tar, entries)
    && var end := ChainEnd(tar, 0, entries);
    && end + 512 <= |tar| && Zeroed(tar[end..end + 512])
  }

  /** No regular file is called manifest.json. */
  ghost predicate LacksManifest(tar: bytes) {
    exists entries :: Reads(tar, entries) && forall i: nat :: !HoldsManifest(entries, i)
  }

  /** The first file of that name is not a list the device can read. */
  ghost predicate UnreadManifest(tar: bytes) {
    exists entries, i: nat ::
      Reads(tar, entries) && HoldsManifest(entries, i) && ParseManifest(DataOf(tar, entries[i])) == None
  }

  /** It is one, but not of as many records as there are other files, each with its digest. */
  ghost predicate MislistedFiles(sha: bytes -> Digest, tar: bytes) {
    exists entries, i: nat, records ::
      && Reads(tar, entries) && HoldsManifest(entries, i)
      && ParseManifest(DataOf(tar, entries[i])) == Some(records)
      && !Lists(sha, tar, entries, DataOf(tar, entries[i]), records)
  }

  /** What the installer answers to an archive it does not accept, and why. */
  ghost predicate Rejected(sha: bytes -> Digest, tar: bytes, code: InstallResult) {
    || Broken(tar, code)
    || (code == ManifestMissing && LacksManifest(tar))
    || (code == ManifestParse && UnreadManifest(tar))
    || (code == ManifestMismatch && MislistedFiles(sha, tar))
  }

  lemma ReadsIsParse(tar: bytes, entries: seq<Entry>)
    requires |tar| < SIZE_MODULUS
    ensures Reads(tar, entries) <==> ParseTar(tar) == TarOk(entries)
  {
    hide ParseTar, Chain, ChainEnd, Zeroed, InBuffer;
    AcceptedIsExact(tar, entries);
    if ParseTar(tar) == TarOk(entries) {
      AcceptedInBuffer(tar);
    }
  }

  /** The only chain of entries up to a zero block is the one the device reads. */
  ghost predicate OnlyReads(tar: bytes, entries: seq<Entry>) {
    forall found :: Reads(tar, found) <==> found == entries
  }

  lemma VerdictsOfEntries(sha: bytes -> Digest, tar: bytes, entries: seq<Entry>)
    requires OnlyReads(tar, entries)
    ensures InBuffer(tar, entries)
    ensures CheckManifest(sha, tar, entries) == InstallOk <==> Accepted(sha, tar)
    ensures CheckManifest(sha, tar, entries) == ManifestMissing <==> LacksManifest(tar)
    ensures CheckManifest(sha, tar, entries) == ManifestParse <==> UnreadManifest(tar)
    ensures CheckManifest(sha, tar, entries) == ManifestMismatch <==> MislistedFiles(sha, tar)
  {
    assert Reads(tar, entries);
    VerdictIsExact(sha, tar, entries);
    hide CheckManifest, Chain, ChainEnd, Zeroed, Lists, ParseManifest;
    if CheckManifest(sha, tar, entries) == InstallOk {
      var i: nat, records :| HoldsManifest(entries, i) && Lists(sha, tar, entries, DataOf(tar, entries[i]), records);
      assert Accepted(sha, tar);
    }
    if Accepted(sha, tar) {
      var found, i: nat, records :| Reads(tar, found) && HoldsManifest(found, i)
        && Lists(sha, tar, found, DataOf(tar, found[i]), records);
      assert found == entries;
    }
  }

  /** Every verdict before writing, over any bytes. */
  lemma ValidateIsExact(sha: bytes -> Digest, tar: bytes)
    requires |tar| < SIZE_MODULUS
    ensures Validate(sha, tar) == InstallOk <==> Accepted(sha, tar)
    ensures forall code | code != InstallOk :: Validate(sha, tar) == code <==> Rejected(sha, tar, code)
  {
    hide ParseTar, CheckManifest, Chain, ChainEnd, Refuses, Reads, Lists, ParseManifest, Broken, HoldsManifest;
    forall entries ensures Reads(tar, entries) <==> ParseTar(tar) == TarOk(entries) {
      ReadsIsParse(tar, entries);
    }
    forall code ensures ParseTar(tar) == TarError(code) <==> Broken(tar, code) {
      RefusedIsExact(tar, code);
    }
    RefusalCodes(tar);
    if ParseTar(tar).TarOk? {
      assert OnlyReads(tar, ParseTar(tar).entries);
      AcceptedInBuffer(tar);
      VerdictsOfEntries(sha, tar, ParseTar(tar).entries);
      hide Accepted, LacksManifest, UnreadManifest, MislistedFiles, OnlyReads;
      CheckCodes(sha, tar, ParseTar(tar).entries);
    } else {
      assert forall entries :: !Reads(tar, entries);
    }
  }

  lemma CheckCodes(sha: bytes -> Digest, tar: bytes, entries: seq<Entry>)
    requires InBuffer(tar, entries)
    ensures CheckManifest(sha, tar, entries) in {InstallOk, ManifestMissing, ManifestParse, ManifestMismatch}
  {
    hide Agrees, ParseManifest, FirstFile;
  }

  lemma RefusalCodes(tar: bytes)
    requires |tar| < SIZE_MODULUS
    ensures ParseTar(tar).TarError? ==> ParseTar(tar).code in {MalformedTar, UnsupportedEntry, UnsafePath}
  {
  }

  /** The installer as a whole, by the stream the payload holds: refused memory and the stream of exactly
      the cap apart, every outcome and every code that is not success is known, and leaves the disk alone. */
  lemma ExtractIsExact(host: Host, d: Disk, dir: bytes, plaintext: bytes, tar: bytes)
    requires Complete(host.inflater(plaintext), tar)
    requires AllocatesUpTo(host.alloc, LargestRequest(MAX_DECOMPRESSED, |tar|))
    ensures var e := Extract(host, d, dir, plaintext);
            && (plaintext == [] ==> e == Installed(InvalidArg, d))
            && (plaintext != [] && |tar| > 536_870_912 ==> e == Installed(DecompressedTooLarge, d))
            && (plaintext != [] && |tar| < 536_870_912 ==>
                  && (Accepted(host.sha, tar) <==> e.code in {InstallOk, IoError})
                  && forall code | Rejected(host.sha, tar, code) && code != InstallOk :: e == Installed(code, d))
  {
    hide Gunzip, Validate, Accepted, Rejected, InstallFrom, Streams, AllocatesUpTo, LargestRequest;
    GunzipRefinesInflation(host.inflater(plaintext), host.alloc, MAX_DECOMPRESSED, |plaintext|, tar);
    if |tar| < MAX_DECOMPRESSED {
      ValidateIsExact(host.sha, tar);
    }
    if plaintext == [] {
      EmptyPayload(host, plaintext);
    }
  }

  lemma EmptyPayload(host: Host, plaintext: bytes)
    requires plaintext == []
    ensures Gunzip(host.inflater(plaintext), host.alloc, MAX_DECOMPRESSED, |plaintext|) == GunzipError(InvalidArg)
  {
  }

  /** Without any assumption on the stream: a failed inflation leaves with its own code. */
  lemma InflationErrorIsReported(host: Host, d: Disk, dir: bytes, plaintext: bytes)
    ensures var g := Gunzip(host.inflater(plaintext), host.alloc, MAX_DECOMPRESSED, |plaintext|);
            g.GunzipError? ==> Extract(host, d, dir, plaintext) == Installed(g.code, d)
  {
    hide Gunzip, Validate, InstallFrom;
  }

  // ---- Which files are opened ----

  /** The paths opened for writing, in order. */
  ghost function OpenedPaths(log: seq<Event>): seq<bytes> {
    if log == [] then []
    else
      var last := log[|log| - 1];
      OpenedPaths(log[..|log| - 1]) + (if last.OpenForWriting? then [last.path] else [])
  }

  /** The regular files but manifest.json, from the i-th entry on, below `dir`. */
  ghost function PlannedPaths(dir: bytes, entries: seq<Entry>, i: nat): seq<bytes>
    requires i <= |entries|
    decreases |entries| - i
  {
    if i == |entries| then []
    else
      var e := entries[i];
      (if e.kind == FileEntry && e.path != [109, 97, 110, 105, 102, 101, 115, 116, 46, 106, 115, 111, 110]
       then [dir + [47] + e.path] else [])
      + PlannedPaths(dir, entries, i + 1)
  }

  lemma OpenedPush(log: seq<Event>, e: Event)
    ensures OpenedPaths(log + [e]) == OpenedPaths(log) + (if e.OpenForWriting? then [e.path] else [])
  {
    assert (log + [e])[..|log|] == log;
  }

  lemma {:induction false} ParentsOpenNothing(io: FaultPlan, d: Disk, dir: bytes, rel: bytes, j: nat)
    requires j <= |rel|
    ensures OpenedPaths(EnsureParents(io, d, dir, rel, j).disk.log) == OpenedPaths(d.log)
    decreases |rel| - j
  {
    hide Resolve, Under, OpenedPaths;
    if j < |rel| {
      if rel[j] != SLASH {
        ParentsOpenNothing(io, d, dir, rel, j + 1);
      } else {
        OpenedPush(d.log, MakeDirectory(Under(dir, rel[..j])));
        var r := MakeDir(io, d, Under(dir, rel[..j]));
        if r.ok {
          ParentsOpenNothing(io, r.disk, dir, rel, j + 1);
        }
      }
    }
  }

  lemma EntryOpens(io: FaultPlan, d: Disk, dir: bytes, rel: bytes, data: bytes)
    ensures var r := WriteEntry(io, d, dir, rel, data);
            && OpenedPaths(d.log) <= OpenedPaths(r.disk.log) <= OpenedPaths(d.log) + [dir + [47] + rel]
            && (r.ok ==> OpenedPaths(r.disk.log) == OpenedPaths(d.log) + [dir + [47] + rel])
  {
    hide Resolve, OpenedPaths, EnsureParents, NamesFile;
    var r := EnsureParents(io, d, dir, rel, 0);
    ParentsOpenNothing(io, d, dir, rel, 0);
    OpenedPush(r.disk.log, OpenForWriting(Under(dir, rel)));
  }

  /** Any entries, any faults: the files opened are the regular files other than manifest.json, in order and
      at their paths below the install directory; all of them when the installation succeeds, and else those
      up to where it stopped. Nothing is opened for a directory entry. */
  lemma {:induction false} OpensExactlyThePlan(io: FaultPlan, d: Disk, dir: bytes, tar: bytes, entries: seq<Entry>,
      i: nat)
    requires i <= |entries| && InBuffer(tar, entries)
    ensures var r := InstallFrom(io, d, dir, tar, entries, i);
            && OpenedPaths(r.disk.log) <= OpenedPaths(d.log) + PlannedPaths(dir, entries, i)
            && (r.ok ==> OpenedPaths(r.disk.log) == OpenedPaths(d.log) + PlannedPaths(dir, entries, i))
    decreases |entries| - i
  {
    ManifestNameSpelled();
    hide WriteEntry, OpenedPaths, MANIFEST_NAME;
    if i < |entries| {
      if !IsPayload(entries[i]) {
        OpensExactlyThePlan(io, d, dir, tar, entries, i + 1);
        assert PlannedPaths(dir, entries, i) == PlannedPaths(dir, entries, i + 1);
      } else {
        var path, data := entries[i].path, DataOf(tar, entries[i]);
        EntryOpens(io, d, dir, path, data);
        var r := WriteEntry(io, d, dir, path, data);
        var before, later := OpenedPaths(d.log), PlannedPaths(dir, entries, i + 1);
        assert PlannedPaths(dir, entries, i) == [dir + [47] + path] + later;
        assert before + [dir + [47] + path] + later == before + ([dir + [47] + path] + later);
        if r.ok {
          OpensExactlyThePlan(io, r.disk, dir, tar, entries, i + 1);
        }
      }
    }
  }

  lemma {:induction false} NoSeparatorNoParents(io: FaultPlan, d: Disk, dir: bytes, rel: bytes, j: nat)
    requires j <= |rel| && 47 !in rel
    ensures EnsureParents(io, d, dir, rel, j) == Outcome(true, d)
    decreases |rel| - j
  {
    if j < |rel| {
      NoSeparatorNoParents(io, d, dir, rel, j + 1);
    }
  }

  /** A path that does not fit the buffer of 4096 bytes is refused before anything is created; one that just
      fits is not. */
  lemma PathLimitIsExact(io: FaultPlan, d: Disk, dir: bytes, rel: bytes, data: bytes)
    ensures |dir| + 1 + |rel| >= 4096 ==> WriteEntry(io, d, dir, rel, data) == Outcome(false, d)
    ensures |dir| + 1 + |rel| <= 4095 && 47 !in rel ==>
              WriteEntry(io, d, dir, rel, data) == WriteFile(io, d, dir + [47] + rel, data)
  {
    hide WriteFile;
    if 47 !in rel {
      NoSeparatorNoParents(io, d, dir, rel, 0);
    }
  }

  // ---- Trees of files ----

  ghost predicate Faultless(io: FaultPlan) {
    forall n: nat :: io(n) == NoFault
  }

  function Components(f: SourceFile): seq<bytes> {
    Split(f.path, SLASH)
  }

  /** Normalised paths, none of which is another or a directory of another. */
  ghost predicate ProperTree(files: seq<SourceFile>) {
    && (forall k | 0 <= k < |files| :: Normalised(files[k].path))
    && (forall j, k | 0 <= j < |files| && 0 <= k < |files| && j != k :: !(Components(files[j]) <= Components(files[k])))
  }

  function Target(base: Location, f: SourceFile): Location {
    base + Components(f)
  }

  /** What stands at a place, if anything. */
  function Seen(nodes: Nodes, at: Location): Option<Node> {
    if at in nodes then Some(nodes[at]) else None
  }

  /** A file can be written at `base + parts`: no directory is there, and no file is on the way. */
  ghost predicate Free(nodes: Nodes, base: Location, parts: seq<bytes>) {
    && !IsDirectory(nodes, base + parts)
    && forall q | 0 < q < |parts| :: Seen(nodes, base + parts[..q]) != None ==> IsDirectory(nodes, base + parts[..q])
  }

  /** `nodes'` is `nodes` with this file and the directories on the way to it. */
  ghost predicate Placed(nodes: Nodes, nodes': Nodes, base: Location, parts: seq<bytes>, data: bytes) {
    forall at :: Seen(nodes', at) == if at == base + parts then Some(File(data))
                                     else if base < at < base + parts then Some(Directory)
                                     else Seen(nodes, at)
  }

  // ---- One file ----

  datatype Way = Way(ok: bool, nodes: Nodes)

  /** The `mkdir` calls for the components of `parts` from the m-th on, but for the last. */
  function MakeWay(nodes: Nodes, base: Location, parts: seq<bytes>, m: nat): Way
    requires 1 <= m <= |parts|
    decreases |parts| - m
  {
    var at := base + parts[..m];
    if m == |parts| then Way(true, nodes)
    else if !IsDirectory(nodes, base + parts[..m - 1]) then Way(false, nodes)
    else MakeWay(if at in nodes then nodes else nodes[at := Directory], base, parts, m + 1)
  }

  /** A prefix of a normalised path, up to a separator, leads to its components. */
  lemma PrefixTarget(dir: bytes, path: bytes, j: nat)
    requires Normalised(path) && j < |path| && path[j] == SLASH
    ensures var parts := SplitRange(path, 0, j, SLASH);
            && Resolve(Under(dir, path[..j])) == Resolve(dir) + parts
            && parts < Split(path, SLASH)
            && SplitRange(path, 0, j + 1, SLASH) == parts + [[]]
  {
    hide Resolve, Under;
    var parts := SplitRange(path, 0, j, SLASH);
    SplitRangeAgrees(path, 0, path[..j], 0, j, SLASH);
    SplitAtSeparator(path, 0, j, |path|, SLASH);
    assert |Split(path, SLASH)| > |parts|;
    ResolveUnder(dir, path[..j]);
    forall c | c in parts ensures ProperName(c) {
      MemberOfPrefix(c, parts, Split(path, SLASH));
    }
    NormalisedWalk(Resolve(dir), parts);
  }

  lemma LevelOf(base: Location, parts: seq<bytes>, m: nat)
    requires 1 <= m <= |parts|
    ensures var at := base + parts[..m]; at != [] && at[..|at| - 1] == base + parts[..m - 1]
  {
  }

  /** One `mkdir` of a faultless run is one step of `MakeWay`. */
  lemma OneLevel(io: FaultPlan, d: Disk, base: Location, parts: seq<bytes>, m: nat, path: bytes)
    requires Faultless(io) && 1 <= m < |parts| && Resolve(path) == base + parts[..m]
    ensures var r := MakeDir(io, d, path);
            && r.ok == IsDirectory(d.nodes, base + parts[..m - 1])
            && (r.ok ==> MakeWay(d.nodes, base, parts, m) == MakeWay(r.disk.nodes, base, parts, m + 1))
  {
    hide Resolve;
    LevelOf(base, parts, m);
  }

  /** The scan for separators makes the directories on the way, component by component. */
  lemma {:induction false} ParentsAreTheWay(io: FaultPlan, d: Disk, dir: bytes, path: bytes, j: nat)
    requires Faultless(io) && Normalised(path) && j <= |path|
    requires |SplitRange(path, 0, j, SLASH)| <= |Split(path, SLASH)|
    ensures var r := EnsureParents(io, d, dir, path, j);
            var w := MakeWay(d.nodes, Resolve(dir), Split(path, SLASH), |SplitRange(path, 0, j, SLASH)|);
            r.ok == w.ok && (r.ok ==> r.disk.nodes == w.nodes)
    decreases |path| - j
  {
    hide Resolve, Normalised, Under, MakeDir, Faultless;
    if j < |path| {
      var parts := SplitRange(path, 0, j, SLASH);
      if path[j] == SLASH {
        PrefixTarget(dir, path, j);
        assert Split(path, SLASH)[..|parts|] == parts;
        OneLevel(io, d, Resolve(dir), Split(path, SLASH), |parts|, Under(dir, path[..j]));
        ParentsAreTheWay(io, MakeDir(io, d, Under(dir, path[..j])).disk, dir, path, j + 1);
      } else {
        ParentsAreTheWay(io, d, dir, path, j + 1);
      }
    }
  }

  ghost predicate OnWay(base: Location, parts: seq<bytes>, m: nat, at: Location) {
    exists q :: m <= q < |parts| && at == base + parts[..q]
  }

  lemma OnWayStep(base: Location, parts: seq<bytes>, m: nat, at: Location)
    requires m < |parts|
    ensures OnWay(base, parts, m, at) <==> at == base + parts[..m] || OnWay(base, parts, m + 1, at)
  {
    if at == base + parts[..m] {
      assert OnWay(base, parts, m, at);
    }
    if OnWay(base, parts, m + 1, at) {
      var q :| m + 1 <= q < |parts| && at == base + parts[..q];
      assert OnWay(base, parts, m, at);
    }
  }

  /** When the way can be made, and what that makes of the tree. */
  lemma {:induction false} WayEffect(nodes: Nodes, base: Location, parts: seq<bytes>, m: nat)
    requires 1 <= m <= |parts|
    ensures var w := MakeWay(nodes, base, parts, m);
            && (w.ok <==> (m < |parts| ==> IsDirectory(nodes, base + parts[..m - 1]))
                          && forall q | m <= q < |parts| - 1 ::
                               Seen(nodes, base + parts[..q]) != None ==> IsDirectory(nodes, base + parts[..q]))
            && (w.ok ==>
                  forall at :: Seen(w.nodes, at) == if at !in nodes && OnWay(base, parts, m, at) then Some(Directory)
                                                    else Seen(nodes, at))
    decreases |parts| - m
  {
    if m < |parts| && IsDirectory(nodes, base + parts[..m - 1]) {
      var here := base + parts[..m];
      var nodes' := if here in nodes then nodes else nodes[here := Directory];
      WayEffect(nodes', base, parts, m + 1);
      forall at ensures OnWay(base, parts, m, at) <==> at == here || OnWay(base, parts, m + 1, at) {
        OnWayStep(base, parts, m, at);
      }
      hide OnWay;
      forall q | m < q < |parts| ensures Seen(nodes', base + parts[..q]) == Seen(nodes, base + parts[..q]) {
        assert |base + parts[..q]| != |here|;
      }
    }
  }

  lemma FileTarget(dir: bytes, path: bytes)
    requires Normalised(path)
    ensures Resolve(Under(dir, path)) == Resolve(dir) + Split(path, SLASH)
    ensures NamesFile(Under(dir, path))
  {
    hide Resolve;
    var components := Split(path, SLASH);
    ResolveUnder(dir, path);
    NormalisedWalk(Resolve(dir), components);
    SplitConcat(dir, path, SLASH);
    assert components[|components| - 1] in components;
  }

  lemma WayIsBetween(base: Location, parts: seq<bytes>, at: Location)
    ensures base < at < base + parts <==> OnWay(base, parts, 1, at)
  {
    if base < at < base + parts {
      assert at == base + parts[..|at| - |base|];
    }
  }

  /** The way and then the file: it works when the place is free, and then nothing else changes. */
  lemma WayThenFile(nodes: Nodes, base: Location, parts: seq<bytes>, data: bytes)
    requires parts != [] && IsDirectory(nodes, base)
    ensures var w := MakeWay(nodes, base, parts, 1);
            && (w.ok && IsDirectory(w.nodes, base + parts[..|parts| - 1]) && !IsDirectory(w.nodes, base + parts)
                <==> Free(nodes, base, parts))
            && (w.ok && Free(nodes, base, parts) ==>
                  Placed(nodes, w.nodes[base + parts := File(data)], base, parts, data))
  {
    WayEffect(nodes, base, parts, 1);
    assert parts[..0] == [] && base + parts[..0] == base;
    forall at ensures base < at < base + parts <==> OnWay(base, parts, 1, at) {
      WayIsBetween(base, parts, at);
    }
    var w := MakeWay(nodes, base, parts, 1);
    hide MakeWay;
    var last := base + parts[..|parts| - 1];
    assert |parts| > 1 ==> OnWay(base, parts, 1, last);
    assert !OnWay(base, parts, 1, base + parts);
    if w.ok {
      assert Seen(w.nodes, base + parts) == Seen(nodes, base + parts);
      assert |parts| == 1 ==> last == base;
      assert Seen(w.nodes, last) == if last !in nodes && |parts| > 1 then Some(Directory) else Seen(nodes, last);
    }
    forall at | OnWay(base, parts, 1, at) && Free(nodes, base, parts) && Seen(nodes, at) != None
      ensures IsDirectory(nodes, at)
    {
      var q :| 1 <= q < |parts| && at == base + parts[..q];
      assert Seen(nodes, base + parts[..q]) != None;
    }
    hide OnWay;
    var nodes' := w.nodes[base + parts := File(data)];
    forall at ensures Seen(nodes', at) == if at == base + parts then Some(File(data)) else Seen(w.nodes, at) {
    }
  }

  /** Without faults an entry is written exactly when its place is free; then the file and the directories
      on the way to it are there, and the rest of the tree is as it was. */
  lemma EntryIsInstalled(io: FaultPlan, d: Disk, dir: bytes, path: bytes, data: bytes)
    requires Faultless(io) && Normalised(path) && |Under(dir, path)| < PATH_BUFFER
    requires IsDirectory(d.nodes, Resolve(dir))
    ensures var r := WriteEntry(io, d, dir, path, data);
            && (r.ok <==> Free(d.nodes, Resolve(dir), Split(path, SLASH)))
            && (r.ok ==> Placed(d.nodes, r.disk.nodes, Resolve(dir), Split(path, SLASH), data))
  {
    var base, parts := Resolve(dir), Split(path, SLASH);
    assert |SplitRange(path, 0, 0, SLASH)| == 1;
    ParentsAreTheWay(io, d, dir, path, 0);
    FileTarget(dir, path);
    WayThenFile(d.nodes, base, parts, data);
    hide Resolve, Split, EnsureParents, MakeWay, Free, Placed, Normalised, NamesFile, Under;
    assert (base + parts)[..|base + parts| - 1] == base + parts[..|parts| - 1];
  }

  // ---- All files ----

  ghost predicate IsTarget(base: Location, files: seq<SourceFile>, n: nat, at: Location)
    requires n <= |files|
  {
    exists k :: 0 <= k < n && at == Target(base, files[k])
  }

  /** On the way from `base` to one of the first `n` files. */
  ghost predicate LeadsTo(base: Location, files: seq<SourceFile>, n: nat, at: Location)
    requires n <= |files|
  {
    exists k :: 0 <= k < n && base < at < Target(base, files[k])
  }

  /** `after` is `before` with exactly the first `n` files and their directories set. */
  ghost predicate Overlaid(before: Nodes, after: Nodes, base: Location, files: seq<SourceFile>, n: nat)
    requires n <= |files|
  {
    && (forall k | 0 <= k < n :: Seen(after, Target(base, files[k])) == Some(File(files[k].data)))
    && (forall at | LeadsTo(base, files, n, at) :: Seen(after, at) == Some(Directory))
    && (forall at | !IsTarget(base, files, n, at) && !LeadsTo(base, files, n, at) ::
          Seen(after, at) == Seen(before, at))
  }

  /** There is a place for every file: no directory is in its place, and no file on the way to it. */
  ghost predicate FitsInto(nodes: Nodes, base: Location, files: seq<SourceFile>) {
    forall k | 0 <= k < |files| :: Free(nodes, base, Components(files[k]))
  }

  ghost predicate PathsFit(dir: bytes, files: seq<SourceFile>) {
    forall k | 0 <= k < |files| :: |Under(dir, files[k].path)| < PATH_BUFFER
  }

  /** Entries that are the files, in order, and then the manifest. */
  ghost predicate FilesThenManifest(tar: bytes, entries: seq<Entry>, files: seq<SourceFile>) {
    && |entries| == |files| + 1
    && entries[|files|].path == MANIFEST_NAME
    && forall k | 0 <= k < |files| ::
         Denotes(tar, entries[k], files[k].path, files[k].data) && files[k].path != MANIFEST_NAME
  }

  lemma BaseCancels(base: Location, a: seq<bytes>, b: seq<bytes>)
    requires base + a <= base + b
    ensures a <= b
  {
    forall i | 0 <= i < |a| ensures a[i] == b[i] {
      assert (base + a)[|base| + i] == (base + b)[|base| + i];
    }
  }

  /** No file of a proper tree has its place at or on the way to another's. */
  lemma TargetsApart(base: Location, files: seq<SourceFile>)
    requires ProperTree(files)
    ensures forall j, k | 0 <= j < |files| && 0 <= k < |files| && j != k ::
              !(Target(base, files[j]) <= Target(base, files[k]))
    ensures forall k | 0 <= k < |files| :: base < Target(base, files[k])
  {
    hide Normalised;
    forall j, k | 0 <= j < |files| && 0 <= k < |files| && j != k
      ensures !(Target(base, files[j]) <= Target(base, files[k]))
    {
      if Target(base, files[j]) <= Target(base, files[k]) {
        BaseCancels(base, Components(files[j]), Components(files[k]));
      }
    }
  }

  lemma NormalisedAt(files: seq<SourceFile>, k: nat)
    requires ProperTree(files) && k < |files|
    ensures Normalised(files[k].path)
  {
  }

  /** A free place has nothing but directories on the way to it. */
  lemma FreeOnTheWay(nodes: Nodes, base: Location, parts: seq<bytes>, at: Location)
    requires Free(nodes, base, parts) && base < at < base + parts
    ensures Seen(nodes, at) != None ==> IsDirectory(nodes, at)
  {
    assert at == base + parts[..|at| - |base|];
  }

  /** The files before it neither take nor clear the place of file `k`. */
  lemma FreeAfterOthers(before: Nodes, nodes: Nodes, base: Location, files: seq<SourceFile>, k: nat)
    requires ProperTree(files) && k < |files| && Overlaid(before, nodes, base, files, k)
    requires forall j | 0 <= j < k :: Free(before, base, Components(files[j]))
    ensures Free(nodes, base, Components(files[k])) <==> Free(before, base, Components(files[k]))
  {
    TargetsApart(base, files);
    hide ProperTree, Components;
    var parts := Components(files[k]);
    assert !IsTarget(base, files, k, base + parts) && !LeadsTo(base, files, k, base + parts);
    forall q | 0 < q < |parts|
      ensures var at := base + parts[..q];
              || Seen(nodes, at) == Seen(before, at)
              || (IsDirectory(nodes, at) && (Seen(before, at) != None ==> IsDirectory(before, at)))
    {
      var at := base + parts[..q];
      assert at < Target(base, files[k]);
      assert !IsTarget(base, files, k, at);
      if LeadsTo(base, files, k, at) {
        var j :| 0 <= j < k && base < at < Target(base, files[j]);
        FreeOnTheWay(before, base, Components(files[j]), at);
      }
    }
    hide Overlaid, LeadsTo, IsTarget;
  }

  lemma OverlaidNext(before: Nodes, nodes: Nodes, after: Nodes, base: Location,
      files: seq<SourceFile>, k: nat)
    requires ProperTree(files) && k < |files| && Overlaid(before, nodes, base, files, k)
    requires Placed(nodes, after, base, Components(files[k]), files[k].data)
    ensures Overlaid(before, after, base, files, k + 1)
  {
    TargetsApart(base, files);
    hide ProperTree, Split;
    forall at
      ensures IsTarget(base, files, k + 1, at) <==> IsTarget(base, files, k, at) || at == Target(base, files[k])
      ensures LeadsTo(base, files, k + 1, at) <==> LeadsTo(base, files, k, at) || base < at < Target(base, files[k])
    {
    }
  }

  /** Installing the files from the k-th on over a tree that already has the others. */
  lemma {:induction false} FilesAreInstalled(io: FaultPlan, d: Disk, dir: bytes, tar: bytes, entries: seq<Entry>,
      files: seq<SourceFile>, before: Nodes, k: nat)
    requires Faultless(io) && ProperTree(files) && PathsFit(dir, files) && k <= |files|
    requires InBuffer(tar, entries) && FilesThenManifest(tar, entries, files)
    requires IsDirectory(before, Resolve(dir)) && Overlaid(before, d.nodes, Resolve(dir), files, k)
    requires forall j | 0 <= j < k :: Free(before, Resolve(dir), Components(files[j]))
    ensures var r := InstallFrom(io, d, dir, tar, entries, k);
            && (r.ok <==> FitsInto(before, Resolve(dir), files))
            && (r.ok ==> Overlaid(before, r.disk.nodes, Resolve(dir), files, |files|))
    decreases |files| - k
  {
    hide Resolve, ProperTree, PathsFit, Overlaid, WriteEntry, Faultless, Free, Placed, Normalised, Split;
    if k == |files| {
      assert !IsPayload(entries[k]);
      assert InstallFrom(io, d, dir, tar, entries, k + 1) == Outcome(true, d);
    } else {
      assert IsPayload(entries[k]) && DataOf(tar, entries[k]) == files[k].data;
      NormalisedAt(files, k);
      BaseStays(before, d.nodes, Resolve(dir), files, k);
      PathFits(dir, files, k);
      EntryIsInstalled(io, d, dir, files[k].path, files[k].data);
      FreeAfterOthers(before, d.nodes, Resolve(dir), files, k);
      var r := WriteEntry(io, d, dir, files[k].path, files[k].data);
      if r.ok {
        OverlaidNext(before, d.nodes, r.disk.nodes, Resolve(dir), files, k);
        FilesAreInstalled(io, r.disk, dir, tar, entries, files, before, k + 1);
      }
    }
  }

  lemma PathFits(dir: bytes, files: seq<SourceFile>, k: nat)
    requires PathsFit(dir, files) && k < |files|
    ensures |Under(dir, files[k].path)| < PATH_BUFFER
  {
  }

  lemma BaseStays(before: Nodes, nodes: Nodes, base: Location, files: seq<SourceFile>, k: nat)
    requires ProperTree(files) && k <= |files| && Overlaid(before, nodes, base, files, k) && IsDirectory(before, base)
    ensures IsDirectory(nodes, base)
  {
    TargetsApart(base, files);
    assert !IsTarget(base, files, k, base) && !LeadsTo(base, files, k, base);
  }

  lemma NothingOverlaid(nodes: Nodes, base: Location, files: seq<SourceFile>)
    ensures Overlaid(nodes, nodes, base, files, 0)
  {
  }

  /** Installing over any tree, without faults: it succeeds if and only if there is a place for every file,
      and the tree is then the old one with exactly these files and their directories set. */
  lemma InstallationOverlays(io: FaultPlan, d: Disk, dir: bytes, tar: bytes, entries: seq<Entry>,
      files: seq<SourceFile>)
    requires Faultless(io) && ProperTree(files) && PathsFit(dir, files)
    requires InBuffer(tar, entries) && FilesThenManifest(tar, entries, files)
    requires IsDirectory(d.nodes, Resolve(dir))
    ensures var r := InstallFrom(io, d, dir, tar, entries, 0);
            && (r.ok <==> FitsInto(d.nodes, Resolve(dir), files))
            && (r.ok ==> Overlaid(d.nodes, r.disk.nodes, Resolve(dir), files, |files|))
  {
    hide Resolve, ProperTree, PathsFit, Overlaid, InstallFrom;
    NothingOverlaid(d.nodes, Resolve(dir), files);
    FilesAreInstalled(io, d, dir, tar, entries, files, d.nodes, 0);
  }

  // ---- Into an empty directory ----

  /** The install directory exists and is empty. */
  ghost predicate EmptyDirectory(nodes: Nodes, base: Location) {
    IsDirectory(nodes, base) && forall at | at in nodes :: !(base < at)
  }

  /** One of the given files belongs at this place, with these contents. */
  ghost predicate Belongs(base: Location, files: seq<SourceFile>, at: Location, data: bytes) {
    exists k :: 0 <= k < |files| && at == Target(base, files[k]) && data == files[k].data
  }

  /** What a complete installation looks like: the regular files below `base` are exactly the given
      path-to-contents pairs. */
  ghost predicate ExactlyInstalled(nodes: Nodes, base: Location, files: seq<SourceFile>) {
    forall at, data | base < at :: (at in nodes && nodes[at] == File(data)) <==> Belongs(base, files, at, data)
  }

  lemma EmptyHasRoom(nodes: Nodes, base: Location, files: seq<SourceFile>)
    requires EmptyDirectory(nodes, base)
    ensures FitsInto(nodes, base, files)
  {
    forall k | 0 <= k < |files| ensures Free(nodes, base, Components(files[k])) {
      var parts := Components(files[k]);
      assert base < base + parts;
      assert forall q | 0 < q < |parts| :: base < base + parts[..q];
    }
  }

  /** Over an empty directory, the overlay is the given files and no others. */
  lemma OverlayOfEmpty(before: Nodes, after: Nodes, base: Location, files: seq<SourceFile>)
    requires EmptyDirectory(before, base) && Overlaid(before, after, base, files, |files|)
    ensures ExactlyInstalled(after, base, files)
  {
    hide Target;
    forall at, data | base < at
      ensures (at in after && after[at] == File(data)) <==> Belongs(base, files, at, data)
    {
      if Belongs(base, files, at, data) {
        var k :| 0 <= k < |files| && at == Target(base, files[k]) && data == files[k].data;
        assert Seen(after, Target(base, files[k])) == Some(File(files[k].data));
      }
      if at in after && after[at] == File(data) {
        assert Seen(after, at) == Some(File(data)) && Seen(before, at) == None;
        assert IsTarget(base, files, |files|, at);
        var k :| 0 <= k < |files| && at == Target(base, files[k]);
        assert Seen(after, Target(base, files[k])) == Some(File(files[k].data));
      }
    }
  }

  /** Installing into an empty directory without faults leaves exactly the given files. */
  lemma InstallationIsExact(io: FaultPlan, d: Disk, dir: bytes, tar: bytes, entries: seq<Entry>, files: seq<SourceFile>)
    requires Faultless(io) && ProperTree(files) && PathsFit(dir, files)
    requires InBuffer(tar, entries) && FilesThenManifest(tar, entries, files)
    requires EmptyDirectory(d.nodes, Resolve(dir))
    ensures var r := InstallFrom(io, d, dir, tar, entries, 0);
            r.ok && ExactlyInstalled(r.disk.nodes, Resolve(dir), files)
  {
    hide Resolve, ProperTree, PathsFit, InstallFrom, Overlaid, FitsInto, ExactlyInstalled, Faultless;
    InstallationOverlays(io, d, dir, tar, entries, files);
    EmptyHasRoom(d.nodes, Resolve(dir), files);
    OverlayOfEmpty(d.nodes, InstallFrom(io, d, dir, tar, entries, 0).disk.nodes, Resolve(dir), files);
  }

  // ---- Interrupted and repeated ----

  /** What an installation of these files may have put at a place: a file of which it has written a part
      or all, or a directory on the way to one. */
  ghost predicate Marked(base: Location, files: seq<SourceFile>, at: Location, node: Option<Node>) {
    || (node == Some(Directory) && LeadsTo(base, files, |files|, at))
    || (node.Some? && node.value.File?
        && exists k :: 0 <= k < |files| && at == Target(base, files[k]) && node.value.data <= files[k].data)
  }

  /** Whatever interrupted it, an installation changed nothing but the places of its files and of the
      directories on the way to them, and wrote nothing there but its files, from their start. */
  ghost predicate Partly(before: Nodes, after: Nodes, base: Location, files: seq<SourceFile>) {
    forall at :: Seen(after, at) == Seen(before, at) || Marked(base, files, at, Seen(after, at))
  }

  lemma PartlyTransitive(a: Nodes, b: Nodes, c: Nodes, base: Location, files: seq<SourceFile>)
    requires Partly(a, b, base, files) && Partly(b, c, base, files)
    ensures Partly(a, c, base, files)
  {
    hide Marked;
  }

  lemma PartlyNothing(nodes: Nodes, base: Location, files: seq<SourceFile>)
    ensures Partly(nodes, nodes, base, files)
  {
  }

  lemma MakeDirIsPartial(io: FaultPlan, d: Disk, path: bytes, base: Location, files: seq<SourceFile>)
    requires LeadsTo(base, files, |files|, Resolve(path))
    ensures Partly(d.nodes, MakeDir(io, d, path).disk.nodes, base, files)
  {
    hide Resolve, LeadsTo, IsTarget;
  }

  lemma WriteFileIsPartial(io: FaultPlan, d: Disk, path: bytes, base: Location, files: seq<SourceFile>, k: nat)
    requires k < |files| && Resolve(path) == Target(base, files[k])
    ensures Partly(d.nodes, WriteFile(io, d, path, files[k].data).disk.nodes, base, files)
  {
    hide Resolve, LeadsTo, Target, NamesFile;
  }

  lemma LeadsToFile(base: Location, files: seq<SourceFile>, k: nat, parts: seq<bytes>)
    requires k < |files| && parts != [] && parts < Components(files[k])
    ensures LeadsTo(base, files, |files|, base + parts)
  {
    assert base < base + parts < Target(base, files[k]);
  }

  lemma {:induction false} ParentsArePartial(io: FaultPlan, d: Disk, dir: bytes, files: seq<SourceFile>, k: nat, j: nat)
    requires ProperTree(files) && k < |files| && j <= |files[k].path|
    ensures Partly(d.nodes, EnsureParents(io, d, dir, files[k].path, j).disk.nodes, Resolve(dir), files)
    decreases |files[k].path| - j
  {
    hide Resolve, ProperTree, Partly, MakeDir, Under;
    var path, base := files[k].path, Resolve(dir);
    if j == |path| {
      PartlyNothing(d.nodes, base, files);
    } else if path[j] != SLASH {
      ParentsArePartial(io, d, dir, files, k, j + 1);
    } else {
      NormalisedAt(files, k);
      PrefixTarget(dir, path, j);
      var r := MakeDir(io, d, Under(dir, path[..j]));
      LeadsToFile(base, files, k, SplitRange(path, 0, j, SLASH));
      MakeDirIsPartial(io, d, Under(dir, path[..j]), base, files);
      if r.ok {
        ParentsArePartial(io, r.disk, dir, files, k, j + 1);
        PartlyTransitive(d.nodes, r.disk.nodes, EnsureParents(io, r.disk, dir, path, j + 1).disk.nodes, base, files);
      }
    }
  }

  lemma EntryIsPartial(io: FaultPlan, d: Disk, dir: bytes, files: seq<SourceFile>, k: nat)
    requires ProperTree(files) && k < |files|
    ensures Partly(d.nodes, WriteEntry(io, d, dir, files[k].path, files[k].data).disk.nodes, Resolve(dir), files)
  {
    hide Resolve, ProperTree, Partly, EnsureParents, WriteFile, Under, Normalised;
    var path, base := files[k].path, Resolve(dir);
    PartlyNothing(d.nodes, base, files);
    var r := EnsureParents(io, d, dir, path, 0);
    ParentsArePartial(io, d, dir, files, k, 0);
    NormalisedAt(files, k);
    FileTarget(dir, path);
    WriteFileIsPartial(io, r.disk, Under(dir, path), base, files, k);
    PartlyTransitive(d.nodes, r.disk.nodes, WriteFile(io, r.disk, Under(dir, path), files[k].data).disk.nodes, base,
        files);
  }

  lemma {:induction false} InstallationIsPartial(io: FaultPlan, d: Disk, dir: bytes, tar: bytes, entries: seq<Entry>,
      files: seq<SourceFile>, k: nat)
    requires ProperTree(files) && k <= |files| && InBuffer(tar, entries) && FilesThenManifest(tar, entries, files)
    ensures Partly(d.nodes, InstallFrom(io, d, dir, tar, entries, k).disk.nodes, Resolve(dir), files)
    decreases |files| - k
  {
    hide Resolve, ProperTree, Partly, WriteEntry;
    PartlyNothing(d.nodes, Resolve(dir), files);
    if k == |files| {
      assert !IsPayload(entries[k]);
      assert InstallFrom(io, d, dir, tar, entries, k + 1) == Outcome(true, d);
    } else {
      assert IsPayload(entries[k]) && DataOf(tar, entries[k]) == files[k].data;
      EntryIsPartial(io, d, dir, files, k);
      var r := WriteEntry(io, d, dir, files[k].path, files[k].data);
      if r.ok {
        InstallationIsPartial(io, r.disk, dir, tar, entries, files, k + 1);
        PartlyTransitive(d.nodes, r.disk.nodes, InstallFrom(io, r.disk, dir, tar, entries, k + 1).disk.nodes,
            Resolve(dir), files);
      }
    }
  }

  /** What a partial installation left still has a place for every file. */
  lemma PartialStillFits(before: Nodes, after: Nodes, base: Location, files: seq<SourceFile>)
    requires ProperTree(files) && Partly(before, after, base, files)
    requires IsDirectory(before, base) && FitsInto(before, base, files)
    ensures IsDirectory(after, base) && FitsInto(after, base, files)
  {
    TargetsApart(base, files);
    hide ProperTree, Split;
    assert !Marked(base, files, base, Seen(after, base));
    assert Seen(after, base) == Seen(before, base);
    forall k | 0 <= k < |files| ensures Free(after, base, Components(files[k])) {
      var parts := Components(files[k]);
      assert Free(before, base, parts);
      assert !LeadsTo(base, files, |files|, base + parts);
      assert Seen(after, base + parts) == Seen(before, base + parts)
          || Marked(base, files, base + parts, Seen(after, base + parts));
      forall q | 0 < q < |parts| && Seen(after, base + parts[..q]) != None
        ensures IsDirectory(after, base + parts[..q])
      {
        var at := base + parts[..q];
        assert at < Target(base, files[k]);
        assert !IsTarget(base, files, |files|, at);
        assert Seen(after, at) == Seen(before, at) || Marked(base, files, at, Seen(after, at));
      }
    }
  }

  /** The overlay does not depend on what a partial installation left behind. */
  lemma OverlaysAgree(before: Nodes, partial: Nodes, x: Nodes, y: Nodes,
      base: Location, files: seq<SourceFile>)
    requires Partly(before, partial, base, files)
    requires Overlaid(before, x, base, files, |files|) && Overlaid(partial, y, base, files, |files|)
    ensures x == y
  {
    forall at ensures Seen(x, at) == Seen(y, at) {
      if IsTarget(base, files, |files|, at) {
        var k :| 0 <= k < |files| && at == Target(base, files[k]);
      } else if !LeadsTo(base, files, |files|, at) {
        assert !Marked(base, files, at, Seen(partial, at));
        assert Seen(partial, at) == Seen(before, at);
      }
    }
    hide Overlaid, Partly;
    assert forall at :: at in x <==> at in y by {
      forall at ensures at in x <==> at in y {
        assert Seen(x, at) == Seen(y, at);
      }
    }
    assert forall at | at in x :: x[at] == y[at] by {
      forall at | at in x ensures x[at] == y[at] {
        assert Seen(x, at) == Seen(y, at);
      }
    }
  }

  /** Retrying converges: whatever stopped the first installation and wherever, installing the same files
      again without faults succeeds and ends in the tree an undisturbed installation would have made. */
  lemma RetryConverges(io: FaultPlan, io': FaultPlan, d: Disk, again: Disk, dir: bytes, tar: bytes, entries: seq<Entry>,
      files: seq<SourceFile>)
    requires Faultless(io') && ProperTree(files) && PathsFit(dir, files)
    requires InBuffer(tar, entries) && FilesThenManifest(tar, entries, files)
    requires IsDirectory(d.nodes, Resolve(dir)) && FitsInto(d.nodes, Resolve(dir), files)
    requires again.nodes == InstallFrom(io, d, dir, tar, entries, 0).disk.nodes
    ensures var retried := InstallFrom(io', again, dir, tar, entries, 0);
            var undisturbed := InstallFrom(io', d, dir, tar, entries, 0);
            retried.ok && undisturbed.ok && retried.disk.nodes == undisturbed.disk.nodes
  {
    hide Resolve, ProperTree, PathsFit, InstallFrom, Overlaid, FitsInto, Partly, Faultless;
    InstallationIsPartial(io, d, dir, tar, entries, files, 0);
    PartialStillFits(d.nodes, again.nodes, Resolve(dir), files);
    InstallationOverlays(io', d, dir, tar, entries, files);
    InstallationOverlays(io', again, dir, tar, entries, files);
    OverlaysAgree(d.nodes, again.nodes, InstallFrom(io', d, dir, tar, entries, 0).disk.nodes,
        InstallFrom(io', again, dir, tar, entries, 0).disk.nodes, Resolve(dir), files);
  }

  // ---- Success under any faults ----

  lemma {:induction false} ParentsWithoutFault(io: FaultPlan, io': FaultPlan, d: Disk, dir: bytes, rel: bytes, j: nat)
    requires Faultless(io') && j <= |rel| && EnsureParents(io, d, dir, rel, j).ok
    ensures EnsureParents(io', d, dir, rel, j) == EnsureParents(io, d, dir, rel, j)
    decreases |rel| - j
  {
    hide Resolve, Under;
    if j < |rel| {
      var d' := if rel[j] == SLASH then MakeDir(io, d, Under(dir, rel[..j])).disk else d;
      ParentsWithoutFault(io, io', d', dir, rel, j + 1);
    }
  }

  lemma EntryWithoutFault(io: FaultPlan, io': FaultPlan, d: Disk, dir: bytes, rel: bytes, data: bytes)
    requires Faultless(io') && WriteEntry(io, d, dir, rel, data).ok
    ensures WriteEntry(io', d, dir, rel, data) == WriteEntry(io, d, dir, rel, data)
  {
    hide Resolve, Under, EnsureParents, NamesFile;
    ParentsWithoutFault(io, io', d, dir, rel, 0);
  }

  /** An installation that reports success met no fault. */
  lemma {:induction false} SuccessIsFaultless(io: FaultPlan, io': FaultPlan, d: Disk, dir: bytes, tar: bytes,
      entries: seq<Entry>, i: nat)
    requires Faultless(io') && i <= |entries| && InBuffer(tar, entries) && InstallFrom(io, d, dir, tar, entries, i).ok
    ensures InstallFrom(io', d, dir, tar, entries, i) == InstallFrom(io, d, dir, tar, entries, i)
    decreases |entries| - i
  {
    hide WriteEntry, Faultless;
    if i < |entries| {
      if IsPayload(entries[i]) {
        EntryWithoutFault(io, io', d, dir, entries[i].path, DataOf(tar, entries[i]));
        SuccessIsFaultless(io, io', WriteEntry(io, d, dir, entries[i].path, DataOf(tar, entries[i])).disk, dir, tar,
            entries, i + 1);
      } else {
        SuccessIsFaultless(io, io', d, dir, tar, entries, i + 1);
      }
    }
  }

  /** The installation does not touch a place that is neither a payload file's nor on the way to one. */
  ghost predicate Beside(base: Location, entries: seq<Entry>, at: Location) {
    forall k | 0 <= k < |entries| && IsPayload(entries[k]) ::
      Normalised(entries[k].path) && !(base < at <= base + Split(entries[k].path, SLASH))
  }

  lemma {:induction false} ParentsLeave(io: FaultPlan, d: Disk, dir: bytes, rel: bytes, j: nat, at: Location)
    requires Normalised(rel) && j <= |rel| && !(Resolve(dir) < at <= Resolve(dir) + Split(rel, SLASH))
    ensures Seen(EnsureParents(io, d, dir, rel, j).disk.nodes, at) == Seen(d.nodes, at)
    decreases |rel| - j
  {
    hide Resolve, Normalised, Under;
    if j < |rel| {
      if rel[j] != SLASH {
        ParentsLeave(io, d, dir, rel, j + 1, at);
      } else {
        PrefixTarget(dir, rel, j);
        var parts := SplitRange(rel, 0, j, SLASH);
        assert Resolve(dir) < Resolve(dir) + parts <= Resolve(dir) + Split(rel, SLASH);
        var r := MakeDir(io, d, Under(dir, rel[..j]));
        if r.ok {
          ParentsLeave(io, r.disk, dir, rel, j + 1, at);
        }
      }
    }
  }

  lemma EntryLeaves(io: FaultPlan, d: Disk, dir: bytes, rel: bytes, data: bytes, at: Location)
    requires Normalised(rel) && !(Resolve(dir) < at <= Resolve(dir) + Split(rel, SLASH))
    ensures Seen(WriteEntry(io, d, dir, rel, data).disk.nodes, at) == Seen(d.nodes, at)
  {
    hide Resolve, Normalised, Under, EnsureParents, NamesFile;
    ParentsLeave(io, d, dir, rel, 0, at);
    FileTarget(dir, rel);
    assert Resolve(dir) < Resolve(dir) + Split(rel, SLASH);
  }

  lemma {:induction false} InstallationLeaves(io: FaultPlan, d: Disk, dir: bytes, tar: bytes, entries: seq<Entry>,
      i: nat,
      at: Location)
    requires i <= |entries| && InBuffer(tar, entries) && Beside(Resolve(dir), entries, at)
    ensures Seen(InstallFrom(io, d, dir, tar, entries, i).disk.nodes, at) == Seen(d.nodes, at)
    decreases |entries| - i
  {
    hide WriteEntry, Resolve, Normalised, Split;
    if i < |entries| {
      if !IsPayload(entries[i]) {
        InstallationLeaves(io, d, dir, tar, entries, i + 1, at);
      } else {
        EntryLeaves(io, d, dir, entries[i].path, DataOf(tar, entries[i]), at);
        var r := WriteEntry(io, d, dir, entries[i].path, DataOf(tar, entries[i]));
        if r.ok {
          InstallationLeaves(io, r.disk, dir, tar, entries, i + 1, at);
        }
      }
    }
  }
}
