/** `fota_installer_extract`: decompress, parse, check, and only then write. */
module Installer {
  import opened Bytes
  import opened Paths
  import opened Results
  import opened Decompression
  import opened TarFormat
  import opened TarWriter
  import opened TarLaws
  import opened ManifestCheck
  import opened Disks

  const PATH_BUFFER: nat := 4096
  const MAX_DECOMPRESSED: nat := 512 * 1024 * 1024

  /** What the installer uses without knowing its inside. */
  datatype Host = Host(sha: bytes -> Digest, inflater: bytes -> Inflater, alloc: Allocator, io: FaultPlan)

  datatype Installed = Installed(code: InstallResult, disk: Disk)

  // ---- Writing one entry ----

  /** Creates the directory of every prefix that ends at a separator at or after `j`. */
  function EnsureParents(io: FaultPlan, d: Disk, dir: bytes, rel: bytes, j: nat): Outcome
    requires j <= |rel|
    decreases |rel| - j
  {
    if j == |rel| then Outcome(true, d)
    else if rel[j] != SLASH then EnsureParents(io, d, dir, rel, j + 1)
    else
      var r := MakeDir(io, d, Under(dir, rel[..j]));
      if r.ok then EnsureParents(io, r.disk, dir, rel, j + 1) else r
  }

  function WriteEntry(io: FaultPlan, d: Disk, dir: bytes, rel: bytes, data: bytes): Outcome {
    if |Under(dir, rel)| >= PATH_BUFFER then Outcome(false, d)
    else
      var r := EnsureParents(io, d, dir, rel, 0);
      if r.ok then WriteFile(io, r.disk, Under(dir, rel), data) else r
  }

  method EnsureParentDirs(fs: FileSystem, io: FaultPlan, dir: bytes, rel: bytes) returns (ok: bool)
    requires |Under(dir, rel)| < PATH_BUFFER
    modifies fs
    ensures Outcome(ok, fs.disk) == EnsureParents(io, old(fs.disk), dir, rel, 0)
  {
    var slash := 0;
    ghost var result := EnsureParents(io, fs.disk, dir, rel, 0);
    while slash < |rel|
      invariant slash <= |rel|
      invariant result == EnsureParents(io, fs.disk, dir, rel, slash)
    {
      if rel[slash] == SLASH {
        var made := fs.Mkdir(io, Under(dir, rel[..slash]));
        if !made {
          return false;
        }
      }
      slash := slash + 1;
    }
    return true;
  }

  method WriteEntryFile(fs: FileSystem, io: FaultPlan, dir: bytes, rel: bytes, data: bytes) returns (ok: bool)
    modifies fs
    ensures Outcome(ok, fs.disk) == WriteEntry(io, old(fs.disk), dir, rel, data)
  {
    if |Under(dir, rel)| >= PATH_BUFFER {
      return false;
    }
    ok := EnsureParentDirs(fs, io, dir, rel);
    if ok {
      ok := fs.Write(io, Under(dir, rel), data);
    }
  }

  // ---- Writing all entries ----

  /** Writes the payload entries from the i-th on, stopping at the first failure. */
  function InstallFrom(io: FaultPlan, d: Disk, dir: bytes, tar: bytes, entries: seq<Entry>, i: nat): Outcome
    requires i <= |entries| && InBuffer(tar, entries)
    decreases |entries| - i
  {
    if i == |entries| then Outcome(true, d)
    else if !IsPayload(entries[i]) then InstallFrom(io, d, dir, tar, entries, i + 1)
    else
      var r := WriteEntry(io, d, dir, entries[i].path, DataOf(tar, entries[i]));
      if r.ok then InstallFrom(io, r.disk, dir, tar, entries, i + 1) else r
  }

  lemma EntryInBuffer(tar: bytes, entries: seq<Entry>, i: nat)
    requires i < |entries| && InBuffer(tar, entries)
    ensures entries[i].start + entries[i].size <= |tar|
  {
  }

  /** One entry: written if it is payload, and passed over otherwise. */
  method InstallEntry(fs: FileSystem, io: FaultPlan, dir: bytes, tar: bytes, entry: Entry) returns (ok: bool)
    requires entry.start + entry.size <= |tar|
    modifies fs
    ensures Outcome(ok, fs.disk)
         == if IsPayload(entry) then WriteEntry(io, old(fs.disk), dir, entry.path, DataOf(tar, entry))
            else Outcome(true, old(fs.disk))
  {
    if entry.kind != FileEntry {
      return true;
    }
    if entry.path == MANIFEST_NAME {
      return true;
    }
    ok := WriteEntryFile(fs, io, dir, entry.path, DataOf(tar, entry));
  }

  method InstallEntries(fs: FileSystem, io: FaultPlan, dir: bytes, tar: bytes, entries: array<Entry>,
      count: nat) returns (ok: bool)
    requires count <= entries.Length && InBuffer(tar, entries[..count])
    modifies fs
    ensures Outcome(ok, fs.disk) == InstallFrom(io, old(fs.disk), dir, tar, entries[..count], 0)
  {
    hide WriteEntry, IsPayload, InBuffer;
    ghost var all := entries[..count];
    ghost var result := InstallFrom(io, fs.disk, dir, tar, all, 0);
    var i := 0;
    while i < count
      invariant i <= count
      invariant entries[..count] == all
      invariant result == InstallFrom(io, fs.disk, dir, tar, all, i)
    {
      assert entries[i] == all[i];
      EntryInBuffer(tar, all, i);
      ok := InstallEntry(fs, io, dir, tar, entries[i]);
      if !ok {
        return false;
      }
      i := i + 1;
    }
    return true;
  }

  // ---- The pipeline ----

  lemma AcceptedInBuffer(tar: bytes)
    requires |tar| < SIZE_MODULUS && ParseTar(tar).TarOk?
    ensures InBuffer(tar, ParseTar(tar).entries)
  {
    EntriesAreInBounds(tar, 0);
    forall e <- ParseTar(tar).entries ensures e.start + e.size <= |tar| {
      var k :| 0 <= k < |ParseTar(tar).entries| && ParseTar(tar).entries[k] == e;
      assert WellPlaced(tar, ParseTar(tar).entries[k]);
    }
  }

  /** A decompressed archive that may be installed, or the reason why not. */
  ghost function Validate(sha: bytes -> Digest, tar: bytes): (code: InstallResult)
    requires |tar| < SIZE_MODULUS
    ensures code == InstallOk ==> ParseTar(tar).TarOk? && InBuffer(tar, ParseTar(tar).entries)
                                  && CheckManifest(sha, tar, ParseTar(tar).entries) == InstallOk
    ensures code in {InstallOk, MalformedTar, UnsupportedEntry, UnsafePath, ManifestMissing, ManifestParse,
        ManifestMismatch}
  {
    match ParseTar(tar)
    case TarError(code) => code
    case TarOk(entries) =>
      AcceptedInBuffer(tar);
      CheckManifest(sha, tar, entries)
  }

  ghost function Extract(host: Host, d: Disk, dir: bytes, plaintext: bytes): Installed {
    match Gunzip(host.inflater(plaintext), host.alloc, MAX_DECOMPRESSED, |plaintext|)
    case GunzipError(code) => Installed(code, d)
    case Inflated(tar) =>
      var code := Validate(host.sha, tar);
      if code != InstallOk then Installed(code, d)
      else
        var r := InstallFrom(host.io, Logged(d, ArchiveValidated(tar)), dir, tar, ParseTar(tar).entries, 0);
        Installed(if r.ok then InstallOk else IoError, r.disk)
  }

  method InstallerExtract(fs: FileSystem, host: Host, dir: bytes, plaintext: bytes) returns (code: InstallResult)
    modifies fs
    ensures Installed(code, fs.disk) == Extract(host, old(fs.disk), dir, plaintext)
  {
    hide Gunzip, CheckManifest, InstallFrom, ParseTar;
    var buf, length, entries, count;
    code, buf, length := Decompress(host.inflater(plaintext), host.alloc, |plaintext|, MAX_DECOMPRESSED);
    if code != InstallOk {
      return code;
    }
    var tar := buf[..length];
    code, entries, count := TarParse(tar);
    if code != InstallOk {
      return code;
    }
    AcceptedInBuffer(tar);
    code := VerifyManifest(host.sha, tar, entries, count);
    if code != InstallOk {
      return code;
    }
    ghost var all := entries[..count];
    fs.Note(ArchiveValidated(tar));
    assert entries[..count] == all;
    var ok := InstallEntries(fs, host.io, dir, tar, entries, count);
    return if ok then InstallOk else IoError;
  }
}
