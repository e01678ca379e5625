/** What every run, and every history of runs, of the device keeps. */
module DeviceLaws {
  import opened Bytes
  import opened Results
  import opened Decompression
  import opened Versions
  import opened Blobs
  import opened Disks
  import opened Installer
  import opened InstallerLaws
  import opened Device

  // ---- One run: what must have succeeded before anything is written ----

  predicate IsWrite(e: Event) {
    e.MakeDirectory? || e.OpenForWriting? || e.WriteVersion?
  }

  /** The package is signed, its key unwraps, its payload decrypts to a stream whose archive is a chain of
      entries with a manifest that lists them. */
  ghost predicate Authorised(inv: Invocation, key: bytes, plaintext: bytes, tar: bytes) {
    var env := inv.env;
    && DeviceSplit(inv.package).Some?
    && var x := DeviceSplit(inv.package).value;
    && env.verifies(x.signedData, x.signature)
    && env.unwrap(x.wrappedKey) == Some(key) && |key| == AES_KEY_SIZE
    && env.decrypt(key, x.header.iv, x.payload) == Some(plaintext)
    && Gunzip(env.host.inflater(plaintext), env.host.alloc, MAX_DECOMPRESSED, |plaintext|) == Inflated(tar)
    && Accepted(env.host.sha, tar)
  }

  /** The four events that come first, in this order. */
  function Preamble(x: Sections, key: bytes, plaintext: bytes, tar: bytes): seq<Event> {
    [SignatureVerified(x.signedData, x.signature), KeyUnwrapped(key), PayloadDecrypted(plaintext),
        ArchiveValidated(tar)]
  }

  /** The run was authorised, and logged the preamble before anything else. */
  ghost predicate Gated(s: State, inv: Invocation, s': State) {
    exists key, plaintext, tar ::
      && Authorised(inv, key, plaintext, tar)
      && s.disk.log + Preamble(DeviceSplit(inv.package).value, key, plaintext, tar) <= s'.disk.log
  }

  /** Nothing was written: same version file, same tree, and no write in the new part of the log. */
  ghost predicate Untouched(s: State, s': State) {
    && s'.versionFile == s.versionFile && s'.disk.nodes == s.disk.nodes
    && s.disk.log <= s'.disk.log
    && forall i | |s.disk.log| <= i < |s'.disk.log| :: !IsWrite(s'.disk.log[i])
  }

  lemma ClosedIsUntouched(s: State, env: Environment, x: Sections)
    ensures var o := OpenPackage(env, s.disk, x);
            Untouched(s, s.(disk := o.disk)) && (o.Closed? ==> o.exit in {1, 5, 8})
  {
  }

  /** Fail closed: a run either writes nothing, or was authorised first and exits 0 or 1; in particular
      every exit code from 2 to 9 leaves the version file and the tree as they were. */
  lemma RunIsGated(s: State, inv: Invocation)
    ensures var r := Run(s, inv);
            && (Untouched(s, r.state) || (Gated(s, inv, r.state) && r.exit in {0, 1}))
            && (r.exit == 0 ==> Gated(s, inv, r.state))
            && (2 <= r.exit <= 9 ==> Untouched(s, r.state))
            && r.exit <= 9
  {
    hide Extract, Accepted, Gunzip, Untouched, VersionText;
    SameIsUntouched(s);
    match Admitted(s, inv) {
      case Refuse(_) =>
      case Admit(x, version) =>
        ClosedIsUntouched(s, inv.env, x);
        match OpenPackage(inv.env, s.disk, x) {
          case Closed(_, _) =>
          case Plaintext(key, plaintext, disk) =>
            InstallingIsGated(s, inv, key, plaintext, disk, version);
        }
    }
  }

  /** What an opened package says about the steps that opened it. */
  lemma OpenedSteps(env: Environment, d: Disk, x: Sections, key: bytes, plaintext: bytes, disk: Disk)
    requires OpenPackage(env, d, x) == Plaintext(key, plaintext, disk)
    ensures env.verifies(x.signedData, x.signature)
    ensures env.unwrap(x.wrappedKey) == Some(key) && |key| == AES_KEY_SIZE
    ensures env.decrypt(key, x.header.iv, x.payload) == Some(plaintext)
    ensures disk.log == d.log + [SignatureVerified(x.signedData, x.signature)]
                        + [KeyUnwrapped(key)] + [PayloadDecrypted(plaintext)]
  {
  }

  lemma SameIsUntouched(s: State)
    ensures Untouched(s, s)
  {
  }

  lemma InstallingIsGated(s: State, inv: Invocation, key: bytes, plaintext: bytes, disk: Disk, version: Version)
    requires DeviceSplit(inv.package).Some?
    requires OpenPackage(inv.env, s.disk, DeviceSplit(inv.package).value) == Plaintext(key, plaintext, disk)
    ensures var r := InstallAndRecord(s.(disk := disk), inv.env, plaintext, version);
            && (Untouched(s, r.state) || (Gated(s, inv, r.state) && r.exit in {0, 1}))
            && (r.exit == 0 ==> Gated(s, inv, r.state))
            && r.exit in {0, 1, 9}
  {
    hide Validate, Accepted, Rejected, Gunzip, VersionText, Extract, DeviceSplit, Untouched;
    var x := DeviceSplit(inv.package).value;
    ClosedIsUntouched(s, inv.env, x);
    OpenedSteps(inv.env, s.disk, x, key, plaintext, disk);
    RejectionIsNoSuccess(inv.env.host, disk, INSTALL_DIR, plaintext);
    hide OpenPackage, Authorised;
    var e := Extract(inv.env.host, disk, INSTALL_DIR, plaintext);
    var r := InstallAndRecord(s.(disk := disk), inv.env, plaintext, version);
    if e.disk != disk {
      var tar := WritingIsAuthorised(inv, s.disk, disk, key, plaintext);
      PreambleIsLogged(s.disk, disk, e.disk, r.state.disk, x, key, plaintext, tar);
    }
  }

  lemma WritingIsAuthorised(inv: Invocation, before: Disk, d: Disk, key: bytes, plaintext: bytes) returns (tar: bytes)
    requires DeviceSplit(inv.package).Some?
    requires OpenPackage(inv.env, before, DeviceSplit(inv.package).value) == Plaintext(key, plaintext, d)
    requires Extract(inv.env.host, d, INSTALL_DIR, plaintext).disk != d
    ensures Authorised(inv, key, plaintext, tar)
    ensures Logged(d, ArchiveValidated(tar)).log <= Extract(inv.env.host, d, INSTALL_DIR, plaintext).disk.log
    ensures Extract(inv.env.host, d, INSTALL_DIR, plaintext).code in {InstallOk, IoError}
  {
    hide Validate, Accepted, Rejected, Gunzip, Extract, DeviceSplit;
    OpenedSteps(inv.env, before, DeviceSplit(inv.package).value, key, plaintext, d);
    hide OpenPackage;
    var host := inv.env.host;
    RejectionLeavesDisk(host, d, INSTALL_DIR, plaintext);
    var e := Extract(host, d, INSTALL_DIR, plaintext);
    tar :| Gunzip(host.inflater(plaintext), host.alloc, MAX_DECOMPRESSED, |plaintext|) == Inflated(tar)
           && Validate(host.sha, tar) == InstallOk && e.code in {InstallOk, IoError}
           && Logged(d, ArchiveValidated(tar)).log <= e.disk.log;
    ValidateIsExact(host.sha, tar);
  }

  lemma PreambleIsLogged(d: Disk, d1: Disk, d2: Disk, d3: Disk, x: Sections, key: bytes, plaintext: bytes, tar: bytes)
    requires d1.log == d.log + [SignatureVerified(x.signedData, x.signature)]
                       + [KeyUnwrapped(key)] + [PayloadDecrypted(plaintext)]
    requires Logged(d1, ArchiveValidated(tar)).log <= d2.log && d2.log <= d3.log
    ensures d.log + Preamble(x, key, plaintext, tar) <= d3.log
  {
    assert d1.log + [ArchiveValidated(tar)] == d.log + Preamble(x, key, plaintext, tar);
  }

  lemma RejectionIsNoSuccess(host: Host, d: Disk, dir: bytes, plaintext: bytes)
    ensures Extract(host, d, dir, plaintext).code == InstallOk ==> Extract(host, d, dir, plaintext).disk != d
  {
    hide Gunzip, Validate, InstallFrom;
    var g := Gunzip(host.inflater(plaintext), host.alloc, MAX_DECOMPRESSED, |plaintext|);
    if g.Inflated? && Validate(host.sha, g.output) == InstallOk {
      RejectionLogs(host, d, dir, g.output);
    }
  }

  lemma RejectionLogs(host: Host, d: Disk, dir: bytes, tar: bytes)
    requires |tar| <= MAX_DECOMPRESSED && Validate(host.sha, tar) == InstallOk
    ensures var d' := Logged(d, ArchiveValidated(tar));
            InstallFrom(host.io, d', dir, tar, TarFormat.ParseTar(tar).entries, 0).disk != d
  {
    AcceptedPathsSafe(tar);
    InstallationIsConfined(host.io, Logged(d, ArchiveValidated(tar)), dir, tar, TarFormat.ParseTar(tar).entries, 0);
  }

  // ---- One run: what each exit code means ----

  /** Header and platform are right, and both versions are readable texts. */
  ghost predicate Comparable(s: State, inv: Invocation) {
    && HeaderCheck(inv.package) == HeaderOk
    && PlatformTagMatches(HeaderFields(inv.package).platformTag)
    && Candidate(inv).Some? && VersionSeen(s, inv.env).Some?
  }

  /** The package's version exceeds the installed one by so much; zero or less means it does not. */
  ghost function Advance(s: State, inv: Invocation): int
    requires Comparable(s, inv)
  {
    Number(Candidate(inv).value) - Number(VersionSeen(s, inv.env).value)
  }

  /** The version rule lets the package pass. */
  ghost predicate Permitted(s: State, inv: Invocation) {
    && Comparable(s, inv)
    && (Advance(s, inv) > 0 || (Advance(s, inv) < 0 && Overrides(inv.env.host.sha, inv.secret, inv.hashFile)))
  }

  /** Permitted, complete, with room on the disk and the public key at hand. */
  ghost predicate Checkable(s: State, inv: Invocation) {
    && Permitted(s, inv) && DeviceSplit(inv.package).Some?
    && inv.env.freeSpace.Some? && inv.env.freeSpace.value >= |DeviceSplit(inv.package).value.payload|
    && inv.env.signingKeyLoads
  }

  /** Checkable, correctly signed, and the private key at hand. */
  ghost predicate Openable(s: State, inv: Invocation) {
    && Checkable(s, inv)
    && inv.env.verifies(DeviceSplit(inv.package).value.signedData, DeviceSplit(inv.package).value.signature)
    && inv.env.deviceKeyLoads
  }

  /** The decrypted payload of an openable package, if its key unwraps to the right size and it decrypts. */
  ghost function Decrypted(inv: Invocation): Option<bytes>
    requires DeviceSplit(inv.package).Some?
  {
    var x := DeviceSplit(inv.package).value;
    var key := inv.env.unwrap(x.wrappedKey);
    if key.None? || |key.value| != AES_KEY_SIZE then None else inv.env.decrypt(key.value, x.header.iv, x.payload)
  }

  lemma AdmittedMeaning(s: State, inv: Invocation)
    ensures var a := Admitted(s, inv);
            && (a == Refuse(2) <==> Comparable(s, inv) && Advance(s, inv) == 0)
            && (a == Refuse(3) <==> HeaderCheck(inv.package) != HeaderOk
                                    || (PlatformTagMatches(HeaderFields(inv.package).platformTag)
                                        && Candidate(inv).None?)
                                    || (Permitted(s, inv) && DeviceSplit(inv.package).None?))
            && (a == Refuse(4) <==> HeaderCheck(inv.package) == HeaderOk
                                    && !PlatformTagMatches(HeaderFields(inv.package).platformTag))
            && (a == Refuse(6) <==> Comparable(s, inv) && Advance(s, inv) < 0 && !Permitted(s, inv))
            && (a == Refuse(7) <==> Permitted(s, inv) && DeviceSplit(inv.package).Some? && inv.env.freeSpace.Some?
                                    && inv.env.freeSpace.value < |DeviceSplit(inv.package).value.payload|)
            && (a.Refuse? ==> a.exit in {1, 2, 3, 4, 6, 7})
            && (inv.env.signingKeyLoads ==> (a.Admit? <==> Checkable(s, inv)))
  {
    hide ParseVersion, InstalledVersion, HeaderFields;
  }

  /** The exit codes mean what the table says, in both directions: each is returned exactly on its
      condition, and every earlier condition takes precedence. */
  lemma ExitCodesAreExact(s: State, inv: Invocation)
    ensures var exit := Run(s, inv).exit;
            && (exit == 2 <==> Comparable(s, inv) && Advance(s, inv) == 0)
            && (exit == 3 <==> HeaderCheck(inv.package) != HeaderOk
                               || (PlatformTagMatches(HeaderFields(inv.package).platformTag) && Candidate(inv).None?)
                               || (Permitted(s, inv) && DeviceSplit(inv.package).None?))
            && (exit == 4 <==> HeaderCheck(inv.package) == HeaderOk
                               && !PlatformTagMatches(HeaderFields(inv.package).platformTag))
            && (exit == 5 <==> Checkable(s, inv)
                               && !inv.env.verifies(DeviceSplit(inv.package).value.signedData,
                                   DeviceSplit(inv.package).value.signature))
            && (exit == 6 <==> Comparable(s, inv) && Advance(s, inv) < 0 && !Permitted(s, inv))
            && (exit == 7 <==> Permitted(s, inv) && DeviceSplit(inv.package).Some? && inv.env.freeSpace.Some?
                               && inv.env.freeSpace.value < |DeviceSplit(inv.package).value.payload|)
            && (exit == 8 <==> Openable(s, inv) && Decrypted(inv).None?)
  {
    hide Comparable, Advance, Permitted, Candidate, PlatformTagMatches, HeaderFields, HeaderCheck, Extract, VersionText,
      DeviceSplit;
    AdmittedMeaning(s, inv);
    hide Admitted;
    match Admitted(s, inv) {
      case Refuse(_) =>
      case Admit(x, version) =>
        ClosedIsUntouched(s, inv.env, x);
        InstallExits();
    }
  }

  lemma InstallExits()
    ensures forall code :: InstallExit(code) in {1, 9}
  {
  }

  /** The installer's rejections, and only they, exit 9; success needs the version file written. */
  lemma InstallerExitCodes(s: State, inv: Invocation)
    ensures Openable(s, inv) && Decrypted(inv).Some? ==>
              var x := DeviceSplit(inv.package).value;
              var disk := Logged(Logged(Logged(s.disk, SignatureVerified(x.signedData, x.signature)),
                                        KeyUnwrapped(inv.env.unwrap(x.wrappedKey).value)),
                                 PayloadDecrypted(Decrypted(inv).value));
              var code := Extract(inv.env.host, disk, INSTALL_DIR, Decrypted(inv).value).code;
                && (Run(s, inv).exit == 9 <==>
                      code in {UnsafePath, UnsupportedEntry, DecompressedTooLarge,
                               ManifestMissing, ManifestParse, ManifestMismatch})
                && (Run(s, inv).exit == 0 <==> code == InstallOk && inv.env.versionFault == NoFault)
  {
    hide Comparable, Advance, Permitted, Candidate, PlatformTagMatches, HeaderFields, HeaderCheck, Extract, VersionText,
      DeviceSplit;
    AdmittedMeaning(s, inv);
    hide Admitted;
    if Openable(s, inv) && Decrypted(inv).Some? {
      var x := DeviceSplit(inv.package).value;
      var content := OpenPackage(inv.env, s.disk, x);
      assert content.Plaintext? && content.data == Decrypted(inv).value;
      InstallExits();
    }
  }

  // ---- Histories ----

  /** The state after a history of invocations. */
  ghost function After(s: State, visits: seq<Invocation>): State {
    if visits == [] then s else Run(After(s, visits[..|visits| - 1]), visits[|visits| - 1]).state
  }

  ghost function ExitOf(s: State, visits: seq<Invocation>, k: nat): nat
    requires k < |visits|
  {
    Run(After(s, visits[..k]), visits[k]).exit
  }

  /** The k-th run was authorised, and the i-th event of the log lies in it behind its preamble. */
  ghost predicate GatedBy(s: State, visits: seq<Invocation>, k: nat, i: nat)
    requires k < |visits|
  {
    var before, after := After(s, visits[..k]), After(s, visits[..k + 1]);
    && |before.disk.log| + 4 <= i < |after.disk.log|
    && Gated(before, visits[k], after)
  }

  /** In every history, each write is preceded, in the same run, by signature, unwrap, decryption and
      validation, in this order and on that run's package. */
  lemma {:induction false} EveryWriteIsGated(s: State, visits: seq<Invocation>, i: nat)
    requires |s.disk.log| <= i < |After(s, visits).disk.log|
    requires IsWrite(After(s, visits).disk.log[i])
    ensures s.disk.log <= After(s, visits).disk.log
    ensures exists k :: 0 <= k < |visits| && GatedBy(s, visits, k, i)
  {
    hide Run, Gated, Untouched;
    LogGrows(s, visits);
    var last := |visits| - 1;
    var init := visits[..last];
    var before, after := After(s, init), After(s, visits);
    RunIsGated(before, visits[last]);
    LogGrowsInRun(before, visits[last]);
    LogGrows(s, init);
    if i < |before.disk.log| {
      assert after.disk.log[i] == before.disk.log[i];
      EveryWriteIsGated(s, init, i);
      var k :| 0 <= k < |init| && GatedBy(s, init, k, i);
      assert init[..k] == visits[..k] && init[..k + 1] == visits[..k + 1];
      assert GatedBy(s, visits, k, i);
    } else {
      WriteComesAfterPreamble(before, visits[last], after, i);
      assert visits[..last + 1] == visits;
      assert GatedBy(s, visits, last, i);
    }
  }

  lemma LogGrowsInRun(s: State, inv: Invocation)
    ensures s.disk.log <= Run(s, inv).state.disk.log
  {
    hide Run, Authorised;
    RunIsGated(s, inv);
  }

  lemma {:induction false} LogGrows(s: State, visits: seq<Invocation>)
    ensures s.disk.log <= After(s, visits).disk.log
  {
    hide Run;
    if visits != [] {
      LogGrows(s, visits[..|visits| - 1]);
      LogGrowsInRun(After(s, visits[..|visits| - 1]), visits[|visits| - 1]);
    }
  }

  lemma WriteComesAfterPreamble(s: State, inv: Invocation, s': State, i: nat)
    requires s' == Run(s, inv).state
    requires |s.disk.log| <= i < |s'.disk.log| && IsWrite(s'.disk.log[i])
    ensures Gated(s, inv, s') && |s.disk.log| + 4 <= i
  {
    hide Run, Accepted, Gunzip, DeviceSplit;
    RunIsGated(s, inv);
    assert !Untouched(s, s');
    var key, plaintext, tar :| Authorised(inv, key, plaintext, tar)
      && s.disk.log + Preamble(DeviceSplit(inv.package).value, key, plaintext, tar) <= s'.disk.log;
    hide Untouched, Gated, Authorised;
    PreambleHasNoWrite(s.disk.log, s'.disk.log, DeviceSplit(inv.package).value, key, plaintext, tar, i);
  }

  lemma PreambleHasNoWrite(log: seq<Event>, log': seq<Event>, x: Sections, key: bytes, plaintext: bytes, tar: bytes,
      i: nat)
    requires log + Preamble(x, key, plaintext, tar) <= log'
    requires |log| <= i < |log'| && IsWrite(log'[i])
    ensures |log| + 4 <= i
  {
    var preamble := Preamble(x, key, plaintext, tar);
    forall j | |log| <= j < |log| + 4 ensures !IsWrite(log'[j]) {
      assert (log + preamble)[j] == preamble[j - |log|];
    }
  }

  // ---- The installed version ----

  /** The version the file holds, if it is readable text. */
  ghost function Stored(s: State): Option<Version> {
    InstalledVersion(s.versionFile)
  }

  /** The three ways a run may lower the version: the override secret, a version file it could not
      open, and a version write cut short. */
  ghost predicate Excused(inv: Invocation) {
    || Overrides(inv.env.host.sha, inv.secret, inv.hashFile)
    || !inv.env.versionReadable
    || inv.env.versionFault.Short?
  }

  /** The version text of the package's header. */
  ghost function Candidate(inv: Invocation): Option<Version> {
    if HeaderCheck(inv.package) == HeaderOk then ParseVersion(HeaderFields(inv.package).fwVersion) else None
  }

  /** A run that exits 0 leaves the package's version installed; without an excuse it is higher than the
      one before, and any other run leaves the version file alone. */
  lemma RunRaisesVersion(s: State, inv: Invocation)
    ensures var r := Run(s, inv);
            && (r.exit == 0 ==> Candidate(inv).Some? && Stored(r.state) == Candidate(inv))
            && (r.exit == 0 && !Excused(inv) ==>
                  Stored(s).Some? && Number(Stored(r.state).value) > Number(Stored(s).value))
            && (r.exit != 0 && !Excused(inv) ==> r.state.versionFile == s.versionFile)
  {
    hide Extract, VersionText, ParseVersion, InstalledVersion;
    match Admitted(s, inv) {
      case Refuse(_) =>
      case Admit(x, version) =>
        VersionFileRoundTrip(version);
    }
  }

  /** The number of runs that exit 0. */
  ghost function Successes(s: State, visits: seq<Invocation>): nat {
    if visits == [] then 0
    else
      var last := |visits| - 1;
      Successes(s, visits[..last]) + (if ExitOf(s, visits, last) == 0 then 1 else 0)
  }

  /** Version history safety: over a history without excuses the installed version never falls, and it
      rises with every run that exits 0. */
  lemma {:induction false} HistoryRaisesVersion(s: State, visits: seq<Invocation>)
    requires Stored(s).Some?
    requires forall k | 0 <= k < |visits| :: !Excused(visits[k])
    ensures Stored(After(s, visits)).Some?
    ensures Number(Stored(After(s, visits)).value) >= Number(Stored(s).value) + Successes(s, visits)
  {
    hide Run, Excused, Stored, Candidate;
    if visits != [] {
      var last := |visits| - 1;
      HistoryRaisesVersion(s, visits[..last]);
      RunRaisesVersion(After(s, visits[..last]), visits[last]);
      StoredByFile(After(s, visits[..last]), After(s, visits));
    }
  }

  lemma StoredByFile(s: State, s': State)
    ensures s.versionFile == s'.versionFile ==> Stored(s) == Stored(s')
  {
  }

  // ---- Exactly which runs change the version, and how ----

  /** The disk as the installer finds it once an openable package is open. */
  ghost function OpenedDisk(s: State, inv: Invocation): Disk
    requires DeviceSplit(inv.package).Some? && Decrypted(inv).Some?
  {
    var x := DeviceSplit(inv.package).value;
    var verified := Logged(s.disk, SignatureVerified(x.signedData, x.signature));
    var unwrapped := Logged(verified, KeyUnwrapped(inv.env.unwrap(x.wrappedKey).value));
    Logged(unwrapped, PayloadDecrypted(Decrypted(inv).value))
  }

  /** The package opens and its files are installed, so that the run goes on to write the version. */
  ghost predicate Installs(s: State, inv: Invocation) {
    && Openable(s, inv) && Decrypted(inv).Some?
    && Extract(inv.env.host, OpenedDisk(s, inv), INSTALL_DIR, Decrypted(inv).value).code == InstallOk
  }

  /** The version that an installing run leaves behind, by what happens to its version write. */
  ghost function Recorded(s: State, inv: Invocation): Option<Version>
    requires Candidate(inv).Some?
  {
    match inv.env.versionFault
    case NoFault => Candidate(inv)
    case Refused => Stored(s)
    case Short(n) => TornVersion(Candidate(inv).value, n)
  }

  lemma OpenableOpens(s: State, inv: Invocation)
    requires Openable(s, inv)
    ensures Admitted(s, inv) == Admit(DeviceSplit(inv.package).value, Candidate(inv).value)
    ensures var o := OpenPackage(inv.env, s.disk, DeviceSplit(inv.package).value);
            if Decrypted(inv).None? then o.Closed?
            else o.Plaintext? && o.data == Decrypted(inv).value && o.disk == OpenedDisk(s, inv)
  {
    hide ParseVersion, InstalledVersion, HeaderFields, HeaderCheck, PlatformTagMatches;
  }

  lemma OnlyOpenableOpens(s: State, inv: Invocation)
    requires Admitted(s, inv).Admit? && OpenPackage(inv.env, s.disk, Admitted(s, inv).sections).Plaintext?
    ensures Openable(s, inv) && Decrypted(inv).Some?
  {
    hide HeaderFields;
    AdmittedMeaning(s, inv);
  }

  /** Every run, without exception: the installed version changes exactly when the run installs, and then
      to the package's version, or to what a torn write of it reads as. */
  lemma RunRecordsVersion(s: State, inv: Invocation)
    ensures Installs(s, inv) ==> Candidate(inv).Some?
    ensures Stored(Run(s, inv).state) == if Installs(s, inv) then Recorded(s, inv) else Stored(s)
    ensures Run(s, inv).exit == 0 <==> Installs(s, inv) && inv.env.versionFault == NoFault
  {
    hide Admitted, OpenPackage, Openable, Extract, VersionText, InstalledVersion, TornVersion, Decrypted, Candidate;
    if Openable(s, inv) {
      OpenableIsCandidate(s, inv);
      OpenableOpens(s, inv);
      if Decrypted(inv).Some? {
        VersionFileRoundTrip(Candidate(inv).value);
        if inv.env.versionFault.Short? {
          TornTextReads(Candidate(inv).value, inv.env.versionFault.n);
        }
        InstallExits();
      } else {
        ClosedIsUntouched(s, inv.env, DeviceSplit(inv.package).value);
      }
    } else {
      match Admitted(s, inv) {
        case Refuse(exit) =>
          AdmittedMeaning(s, inv);
        case Admit(x, version) =>
          ClosedIsUntouched(s, inv.env, x);
          if OpenPackage(inv.env, s.disk, x).Plaintext? {
            OnlyOpenableOpens(s, inv);
          }
      }
    }
  }

  lemma OpenableIsCandidate(s: State, inv: Invocation)
    requires Openable(s, inv)
    ensures Candidate(inv).Some? && DeviceSplit(inv.package).Some?
  {
  }

  /** The installed version falls, or is no longer readable. */
  ghost predicate Lowered(s: State, s': State) {
    Stored(s).Some? && (Stored(s').None? || Number(Stored(s').value) < Number(Stored(s).value))
  }

  /** Writing the version of this run over this one leaves less: the package is older, or the write is torn
      where what remains is unreadable or older. */
  ghost predicate Falls(inv: Invocation, installed: Version)
    requires Candidate(inv).Some?
  {
    match inv.env.versionFault
    case NoFault => Number(Candidate(inv).value) < Number(installed)
    case Refused => false
    case Short(n) =>
      var torn := TornVersion(Candidate(inv).value, n);
      torn.None? || Number(torn.value) < Number(installed)
  }

  /** A run lowers the installed version if and only if it installs a package whose version write falls
      below it. When such a run exits 0, it was allowed by the override secret, or could not open the
      version file. */
  lemma RunLowersIff(s: State, inv: Invocation)
    requires Stored(s).Some?
    ensures Lowered(s, Run(s, inv).state) <==> Installs(s, inv) && Candidate(inv).Some? && Falls(inv, Stored(s).value)
    ensures Run(s, inv).exit == 0 && inv.env.versionReadable ==>
              && Comparable(s, inv)
              && (Lowered(s, Run(s, inv).state) <==> Advance(s, inv) < 0)
              && (Lowered(s, Run(s, inv).state) ==> Overrides(inv.env.host.sha, inv.secret, inv.hashFile))
    ensures Lowered(s, Run(s, inv).state) ==> Excused(inv)
  {
    hide Run, Extract, ParseVersion, InstalledVersion, HeaderFields, HeaderCheck, DeviceSplit, TornVersion;
    RunRecordsVersion(s, inv);
  }

  /** The run at position `k` of the history is one that lowers the installed version. */
  ghost predicate LowersAt(s: State, visits: seq<Invocation>, k: nat)
    requires k < |visits|
  {
    var before := After(s, visits[..k]);
    && Lowered(before, After(s, visits[..k + 1]))
    && Installs(before, visits[k]) && Candidate(visits[k]).Some? && Falls(visits[k], Stored(before).value)
    && Excused(visits[k])
  }

  /** Every decrease between two points of a history has its witness between them: a run whose own step
      lowers the version, in one of the exact ways. */
  lemma {:induction false} EveryDecreaseIsExcused(s: State, visits: seq<Invocation>, i: nat, j: nat)
    requires i <= j <= |visits| && Lowered(After(s, visits[..i]), After(s, visits[..j]))
    ensures exists k :: i <= k < j && LowersAt(s, visits, k)
    decreases j
  {
    hide Run, Stored, Installs, Falls, Excused, Candidate;
    var start, before, after := After(s, visits[..i]), After(s, visits[..j - 1]), After(s, visits[..j]);
    assert visits[..j][..j - 1] == visits[..j - 1];
    if Lowered(start, before) {
      EveryDecreaseIsExcused(s, visits, i, j - 1);
    } else {
      RunLowersIff(before, visits[j - 1]);
      assert LowersAt(s, visits, j - 1);
    }
  }

  /** Locked out: once the version file holds no readable version, and as long as it can be opened, no
      package whatever is installed again; every run exits 1, 3 or 4 and changes nothing. */
  lemma {:induction false} UnreadableVersionLocksOut(s: State, visits: seq<Invocation>)
    requires Stored(s).None? && forall k | 0 <= k < |visits| :: visits[k].env.versionReadable
    ensures After(s, visits) == s
    ensures forall k | 0 <= k < |visits| :: ExitOf(s, visits, k) in {1, 3, 4}
  {
    hide Run, Stored;
    if visits != [] {
      var last := |visits| - 1;
      UnreadableVersionLocksOut(s, visits[..last]);
      UnreadableVersionRefuses(s, visits[last]);
      forall k | 0 <= k < |visits| ensures ExitOf(s, visits, k) in {1, 3, 4} {
        if k < last {
          assert visits[..last][..k] == visits[..k];
          assert ExitOf(s, visits[..last], k) in {1, 3, 4};
        }
      }
    }
  }

  lemma UnreadableVersionRefuses(s: State, inv: Invocation)
    requires Stored(s).None? && inv.env.versionReadable
    ensures Run(s, inv).state == s && Run(s, inv).exit in {1, 3, 4}
  {
    hide ParseVersion, InstalledVersion, HeaderFields, HeaderCheck;
    assert Admitted(s, inv).Refuse?;
  }

  /** A torn write can do that to a device: an upgrade whose version write stops inside the first three
      parts leaves no readable version. */
  lemma TornWriteForgetsVersion(s: State, inv: Invocation, n: nat)
    requires Installs(s, inv) && inv.env.versionFault == Short(n)
    ensures Candidate(inv).Some? && Run(s, inv).exit == 1
    ensures 1 <= n <= LastPartAt(Candidate(inv).value) ==> Stored(Run(s, inv).state).None?
    ensures n == 0 ==> Stored(Run(s, inv).state) == Some(NO_VERSION)
  {
    hide Run, Installs, Stored, LastPartAt;
    RunRecordsVersion(s, inv);
    RunIsGated(s, inv);
    InstallingExits(s, inv);
  }

  lemma InstallingExits(s: State, inv: Invocation)
    requires Installs(s, inv)
    ensures Run(s, inv).exit in {0, 1}
  {
    hide Admitted, OpenPackage, Openable, Extract, VersionText, Decrypted, Candidate;
    OpenableIsCandidate(s, inv);
    OpenableOpens(s, inv);
  }

  /** Reinstalling: after a run that exits 0, a later invocation with the same package exits 2 if and only if
      it can open the version file, or the package's version is 0.0.0.0; then it changes nothing, whatever
      else has changed around it. Otherwise the package passes the version rule a second time. */
  lemma ReinstallIsNoOp(s: State, inv: Invocation, again: Invocation)
    requires Run(s, inv).exit == 0 && again.package == inv.package
    ensures var run := Run(Run(s, inv).state, again);
            && (run.exit == EXIT_UP_TO_DATE <==> again.env.versionReadable || Candidate(inv) == Some(NO_VERSION))
            && (run.exit == EXIT_UP_TO_DATE ==> run.state == Run(s, inv).state)
            && (run.exit != EXIT_UP_TO_DATE ==> Permitted(Run(s, inv).state, again))
  {
    hide OpenPackage, InstallAndRecord, ParseVersion, HeaderFields, HeaderCheck;
    RunRaisesVersion(s, inv);
    assert Admitted(s, inv).Admit?;
    var installed := Run(s, inv).state;
    NoFileReads();
    hide InstalledVersion, Admitted, Run;
    ReinstallSeen(installed, inv, again);
    ExitCodesAreExact(installed, again);
    RunIsGated(installed, again);
    UpToDateRefuses(installed, again);
  }

  lemma NoFileReads()
    ensures InstalledVersion(None) == Some(NO_VERSION) && Number(NO_VERSION) == 0
  {
  }

  lemma UpToDateRefuses(s: State, inv: Invocation)
    ensures Run(s, inv).exit == EXIT_UP_TO_DATE ==> Run(s, inv).state == s
  {
    hide Admitted, Extract, VersionText;
    match Admitted(s, inv) {
      case Refuse(_) =>
      case Admit(x, version) =>
        ClosedIsUntouched(s, inv.env, x);
        InstallExits();
    }
  }

  /** What the second run compares. */
  lemma ReinstallSeen(s: State, inv: Invocation, again: Invocation)
    requires Candidate(inv).Some? && Stored(s) == Candidate(inv) && again.package == inv.package
    requires HeaderCheck(inv.package) == HeaderOk && PlatformTagMatches(HeaderFields(inv.package).platformTag)
    ensures Comparable(s, again)
    ensures again.env.versionReadable ==> Advance(s, again) == 0
    ensures !again.env.versionReadable ==> Advance(s, again) == Number(Candidate(inv).value)
    ensures Number(Candidate(inv).value) == 0 <==> Candidate(inv).value == NO_VERSION
  {
    hide ParseVersion, HeaderFields, HeaderCheck;
    NoFileReads();
    if Number(Candidate(inv).value) == 0 {
      NumberIsInjective(Candidate(inv).value, NO_VERSION);
    }
  }
}
