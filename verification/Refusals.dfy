/** What the device refuses, and with which exit code, in terms of the package's bytes, the secret and the
    hash file themselves. */
module Refusals {
  import opened Bytes
  import opened Results
  import opened Decompression
  import opened Versions
  import opened Blobs
  import opened Disks
  import opened Installer
  import opened InstallerLaws
  import opened Device
  import opened DeviceLaws

  // ---- A package, byte by byte ----

  /** `FOTS`, format version 1, and 51 bytes. */
  predicate SoundHeader(d: bytes) {
    |d| >= 51 && d[..4] == [70, 79, 84, 83] && d[4] == 1
  }

  /** `GENERIC`, padded with NULs. */
  predicate OurPlatform(d: bytes) {
    SoundHeader(d) && d[5..21] == [71, 69, 78, 69, 82, 73, 67, 0, 0, 0, 0, 0, 0, 0, 0, 0]
  }

  /** Wrapped key and signature are there. */
  predicate Whole(d: bytes) {
    SoundHeader(d) && |d| >= 307 + KeyLengthAt(d)
  }

  function SignedBytes(d: bytes): bytes
    requires Whole(d)
  {
    d[..51 + KeyLengthAt(d)] + d[307 + KeyLengthAt(d)..]
  }

  function SignatureOf(d: bytes): bytes
    requires Whole(d)
  {
    d[51 + KeyLengthAt(d)..307 + KeyLengthAt(d)]
  }

  function CiphertextOf(d: bytes): bytes
    requires Whole(d)
  {
    d[307 + KeyLengthAt(d)..]
  }

  ghost function Offered(d: bytes): Option<Version>
    requires SoundHeader(d)
  {
    ParseVersion(d[21..33])
  }

  /** The version the run compares with: what the file holds, or 0.0.0.0 where there is none to open. */
  ghost function Compared(s: State, inv: Invocation): Option<Version> {
    if inv.env.versionReadable && s.versionFile.Some? then InstalledVersion(s.versionFile) else Some([0, 0, 0, 0])
  }

  /** A non-empty secret, whose digest is the whole hash file. */
  predicate SecretFits(inv: Invocation) {
    inv.secret.Some? && inv.secret.value != [] && inv.hashFile == Some(inv.env.host.sha(inv.secret.value))
  }

  /** Header and platform are right, and there are two versions to compare. */
  ghost predicate Weighed(s: State, inv: Invocation) {
    OurPlatform(inv.package) && Offered(inv.package).Some? && Compared(s, inv).Some?
  }

  /** By how much the offered version exceeds the installed one. */
  ghost function Step(s: State, inv: Invocation): int
    requires Weighed(s, inv)
  {
    Number(Offered(inv.package).value) - Number(Compared(s, inv).value)
  }

  /** Newer, or older with the secret. */
  ghost predicate Allowed(s: State, inv: Invocation) {
    Weighed(s, inv) && (Step(s, inv) > 0 || (Step(s, inv) < 0 && SecretFits(inv)))
  }

  /** Allowed, complete, and fitting the free space. */
  ghost predicate Passes(s: State, inv: Invocation) {
    && Allowed(s, inv)
    && Whole(inv.package)
    && inv.env.freeSpace.Some? && |CiphertextOf(inv.package)| <= inv.env.freeSpace.value
  }

  /** The signature holds for header, wrapped key and ciphertext. */
  predicate Signed(inv: Invocation)
    requires Whole(inv.package)
  {
    inv.env.verifies(SignedBytes(inv.package), SignatureOf(inv.package))
  }

  /** The payload: the wrapped key gives 32 bytes, and they decrypt the ciphertext under the header's IV. */
  function PayloadOf(inv: Invocation): Option<bytes>
    requires Whole(inv.package)
  {
    var d := inv.package;
    var key := inv.env.unwrap(d[51..51 + KeyLengthAt(d)]);
    if key.None? || |key.value| != 32 then None else inv.env.decrypt(key.value, d[35..51], CiphertextOf(d))
  }

  // ---- The model's own terms mean the same ----

  lemma PlatformSpelled()
    ensures PLATFORM_TAG + Zeros(PLATFORM_TAG_SIZE - |PLATFORM_TAG|)
         == [71, 69, 78, 69, 82, 73, 67, 0, 0, 0, 0, 0, 0, 0, 0, 0]
    ensures |PLATFORM_TAG| == 7
  {
    assert PLATFORM_TAG == [71, 69, 78, 69, 82, 73, 67];
  }

  lemma HeadersAreSpelled(d: bytes)
    ensures HeaderCheck(d) == HeaderOk <==> SoundHeader(d)
    ensures SoundHeader(d) ==> HeaderFields(d) == Header(d[5..21], d[21..33], KeyLengthAt(d), d[35..51])
    ensures SoundHeader(d) ==> (PlatformTagMatches(HeaderFields(d).platformTag) <==> OurPlatform(d))
    ensures DeviceSplit(d).Some? <==> Whole(d)
  {
    Blobs.HeaderIsExact(d);
    SplitIsExact(d);
    PlatformSpelled();
    hide HeaderCheck, DeviceSplit, PLATFORM_TAG;
  }

  lemma VersionsAreSpelled(s: State, inv: Invocation)
    ensures Compared(s, inv) == VersionSeen(s, inv.env)
    ensures SoundHeader(inv.package) ==> Candidate(inv) == Offered(inv.package)
    ensures SecretFits(inv) <==> Overrides(inv.env.host.sha, inv.secret, inv.hashFile)
  {
    HeadersAreSpelled(inv.package);
    InstalledIsExact([], []);
    DowngradeIsExact(inv.env.host.sha, NO_VERSION, NO_VERSION, inv.secret, inv.hashFile);
    hide ParseVersion, InstalledVersion, HeaderCheck, HeaderFields, Overrides, DowngradeDecision;
  }

  lemma ChecksAreSpelled(s: State, inv: Invocation)
    ensures Weighed(s, inv) <==> Comparable(s, inv)
    ensures Weighed(s, inv) ==> Step(s, inv) == Advance(s, inv)
    ensures Passes(s, inv) && inv.env.signingKeyLoads <==> Checkable(s, inv)
    ensures Passes(s, inv) && inv.env.signingKeyLoads && Signed(inv) && inv.env.deviceKeyLoads <==> Openable(s, inv)
    ensures Whole(inv.package) ==> PayloadOf(inv) == Decrypted(inv)
  {
    HeadersAreSpelled(inv.package);
    VersionsAreSpelled(s, inv);
    SplitIsExact(inv.package);
    hide HeaderCheck, HeaderFields, DeviceSplit, PlatformTagMatches, InstalledVersion, ParseVersion, Compared, Offered,
      Candidate, Overrides, SecretFits, VersionSeen, Number;
  }

  // ---- The exit codes ----

  /** Every exit code before the installer, each if and only if, from the package's own bytes. */
  lemma RefusalsAreExact(s: State, inv: Invocation)
    ensures var exit, d := Run(s, inv).exit, inv.package;
            && (exit == 4 <==> SoundHeader(d) && !OurPlatform(d))
            && (exit == 2 <==> Weighed(s, inv) && Step(s, inv) == 0)
            && (exit == 6 <==> Weighed(s, inv) && Step(s, inv) < 0 && !SecretFits(inv))
            && (exit == 3 <==>
                  || !SoundHeader(d) || (OurPlatform(d) && Offered(d).None?)
                  || (Allowed(s, inv) && !Whole(d)))
            && (exit == 7 <==> Allowed(s, inv) && Whole(d)
                               && inv.env.freeSpace.Some? && inv.env.freeSpace.value < |CiphertextOf(d)|)
            && (exit == 5 <==> Passes(s, inv) && inv.env.signingKeyLoads && !Signed(inv))
            && (exit == 8 <==> Passes(s, inv) && inv.env.signingKeyLoads && Signed(inv) && inv.env.deviceKeyLoads
                               && PayloadOf(inv).None?)
  {
    ExitCodesAreExact(s, inv);
    HeadersAreSpelled(inv.package);
    VersionsAreSpelled(s, inv);
    ChecksAreSpelled(s, inv);
    SplitIsExact(inv.package);
    hide Run, HeaderCheck, HeaderFields, DeviceSplit, PlatformTagMatches, VersionSeen, Compared, Offered, Candidate,
      Overrides, SecretFits, Decrypted, PayloadOf, Comparable, Advance;
  }

  /** A run that installs has passed all of them, on a package for this platform. */
  lemma InstallingHasPassed(s: State, inv: Invocation)
    requires Installs(s, inv)
    ensures OurPlatform(inv.package) && Passes(s, inv) && Signed(inv) && PayloadOf(inv).Some?
  {
    ChecksAreSpelled(s, inv);
    hide Openable, Passes, OurPlatform, Extract;
    PassingIsOurs(s, inv);
  }

  lemma PassingIsOurs(s: State, inv: Invocation)
    requires Passes(s, inv)
    ensures OurPlatform(inv.package) && Whole(inv.package)
  {
  }

  /** The override secret, on its own terms: a run that exits 0, could open the version file and lowers the
      version was given a non-empty secret whose digest is the whole hash file. */
  lemma LoweringNeedsTheSecret(s: State, inv: Invocation)
    requires Run(s, inv).exit == 0 && inv.env.versionReadable && Lowered(s, Run(s, inv).state)
    ensures inv.secret.Some? && inv.secret.value != [] && inv.hashFile == Some(inv.env.host.sha(inv.secret.value))
  {
    hide Run;
    RunLowersIff(s, inv);
    VersionsAreSpelled(s, inv);
  }

  /** The installer's exit codes, by the archive in the payload: 9 for a stream above 512 MiB, an unsafe path,
      an unsupported entry, and a manifest that is missing, unreadable or not exact; 1 for a malformed
      archive and an empty payload; 0 or 1 for an archive that is accepted. */
  lemma InstallerExitsAreExact(s: State, inv: Invocation, tar: bytes)
    requires Passes(s, inv) && inv.env.signingKeyLoads && Signed(inv) && inv.env.deviceKeyLoads && PayloadOf(inv).Some?
    requires Complete(inv.env.host.inflater(PayloadOf(inv).value), tar) && |tar| != 536_870_912
    requires AllocatesUpTo(inv.env.host.alloc, LargestRequest(MAX_DECOMPRESSED, |tar|))
    ensures var exit, payload, sha := Run(s, inv).exit, PayloadOf(inv).value, inv.env.host.sha;
            && (exit == 9 <==> payload != [] && (|tar| > 536_870_912 || RejectedByNine(sha, tar)))
            && exit in {0, 1, 9}
            && (payload == [] || (|tar| < 536_870_912 && Rejected(sha, tar, MalformedTar)) ==> exit == 1)
            && (exit == 0 ==> payload != [] && |tar| < 536_870_912 && Accepted(sha, tar))
  {
    ChecksAreSpelled(s, inv);
    PassingIsOurs(s, inv);
    hide Openable, Passes, Signed, PayloadOf, Whole, Decrypted, OpenedDisk, Run, Extract, Complete, AllocatesUpTo,
      Rejected, RejectedByNine, Accepted, LargestRequest;
    InstallerCodes(inv.env.host, OpenedDisk(s, inv), PayloadOf(inv).value, tar);
    OpenedRun(s, inv);
  }

  /** The five reasons that are reported as 9. */
  ghost predicate RejectedByNine(sha: bytes -> Digest, tar: bytes) {
    || Rejected(sha, tar, UnsafePath) || Rejected(sha, tar, UnsupportedEntry)
    || Rejected(sha, tar, ManifestMissing) || Rejected(sha, tar, ManifestParse) || Rejected(sha, tar, ManifestMismatch)
  }

  lemma InstallerCodes(host: Host, d: Disk, payload: bytes, tar: bytes)
    requires Complete(host.inflater(payload), tar) && |tar| != 536_870_912
    requires AllocatesUpTo(host.alloc, LargestRequest(MAX_DECOMPRESSED, |tar|))
    ensures var code := Extract(host, d, INSTALL_DIR, payload).code;
            && (code != InstallOk && InstallExit(code) == 9 <==>
                  payload != [] && (|tar| > 536_870_912 || RejectedByNine(host.sha, tar)))
            && (code != InstallOk ==> InstallExit(code) in {1, 9})
            && (payload == [] || (|tar| < 536_870_912 && Rejected(host.sha, tar, MalformedTar)) ==>
                  code != InstallOk && InstallExit(code) == 1)
            && (code == InstallOk ==> payload != [] && |tar| < 536_870_912 && Accepted(host.sha, tar))
  {
    hide Complete, AllocatesUpTo, Extract, Rejected, Accepted, LargestRequest;
    ExtractIsExact(host, d, INSTALL_DIR, payload, tar);
    if |tar| < 536_870_912 {
      VerdictIsOne(host.sha, tar);
    }
  }

  /** An archive is accepted, or rejected for one reason. */
  lemma VerdictIsOne(sha: bytes -> Digest, tar: bytes)
    requires |tar| < SIZE_MODULUS
    ensures || Accepted(sha, tar)
            || (exists code ::
                  && code in {MalformedTar, UnsupportedEntry, UnsafePath,
                              ManifestMissing, ManifestParse, ManifestMismatch}
                  && Rejected(sha, tar, code))
    ensures forall code | code != InstallOk && Rejected(sha, tar, code) ::
              && !Accepted(sha, tar)
              && (forall other | other != InstallOk && Rejected(sha, tar, other) :: other == code)
  {
    hide Accepted, Rejected, Validate;
    ValidateIsExact(sha, tar);
    assert Validate(sha, tar) != InstallOk ==> Rejected(sha, tar, Validate(sha, tar));
  }

  lemma OpenedRun(s: State, inv: Invocation)
    requires Openable(s, inv) && Decrypted(inv).Some?
    ensures var e := Extract(inv.env.host, OpenedDisk(s, inv), INSTALL_DIR, Decrypted(inv).value);
            var failed := inv.env.versionFault != NoFault;
            Run(s, inv).exit == if e.code != InstallOk then InstallExit(e.code) else if failed then 1 else 0
  {
    hide Admitted, OpenPackage, Openable, Extract, VersionText, Decrypted, Candidate, OpenedDisk;
    OpenableIsCandidate(s, inv);
    OpenableOpens(s, inv);
  }
}
