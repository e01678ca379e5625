/** The device program as a step on (version file, disk), with the checks in the order main makes them. */
module Device {
  import opened Bytes
  import opened Results
  import opened Versions
  import opened Blobs
  import opened Disks
  import opened Installer

  const PLATFORM_TAG: bytes := Ascii("GENERIC")
  const INSTALL_DIR: bytes := Ascii("/opt/fota-secure/install")
  const AES_KEY_SIZE: nat := 32

  const EXIT_SUCCESS: nat := 0
  const EXIT_GENERIC_FAILURE: nat := 1
  const EXIT_UP_TO_DATE: nat := 2
  const EXIT_MALFORMED_HEADER: nat := 3
  const EXIT_PLATFORM_MISMATCH: nat := 4
  const EXIT_SIGNATURE_FAILED: nat := 5
  const EXIT_DOWNGRADE_BLOCKED: nat := 6
  const EXIT_INSUFFICIENT_DISK_SPACE: nat := 7
  const EXIT_DECRYPTION_FAILED: nat := 8
  const EXIT_INSTALLER_REJECTED: nat := 9

  /** What one invocation meets outside its own code: cryptography with the keys on the device, free
      space, and which files can be opened and written. */
  datatype Environment = Environment(
    host: Host,
    verifies: (bytes, bytes) -> bool,
    unwrap: bytes -> Option<bytes>,
    decrypt: (bytes, bytes, bytes) -> Option<bytes>,
    freeSpace: Option<nat>,
    signingKeyLoads: bool,
    deviceKeyLoads: bool,
    versionReadable: bool,
    versionFault: Fault)

  datatype Invocation = Invocation(package: bytes, secret: Option<bytes>, hashFile: Option<bytes>, env: Environment)

  datatype State = State(versionFile: Option<bytes>, disk: Disk)

  datatype RunResult = RunResult(exit: nat, state: State)

  // ---- Decisions ----

  /** The fixed-width comparison with the configured tag. */
  predicate PlatformTagMatches(tag: bytes) {
    |PLATFORM_TAG| <= PLATFORM_TAG_SIZE && tag == PLATFORM_TAG + Zeros(PLATFORM_TAG_SIZE - |PLATFORM_TAG|)
  }

  function InstallExit(code: InstallResult): nat {
    match code
    case UnsafePath => EXIT_INSTALLER_REJECTED
    case UnsupportedEntry => EXIT_INSTALLER_REJECTED
    case DecompressedTooLarge => EXIT_INSTALLER_REJECTED
    case ManifestMissing => EXIT_INSTALLER_REJECTED
    case ManifestParse => EXIT_INSTALLER_REJECTED
    case ManifestMismatch => EXIT_INSTALLER_REJECTED
    case _ => EXIT_GENERIC_FAILURE
  }

  datatype Admission = Refuse(exit: nat) | Admit(sections: Sections, version: Version)

  /** The version the run takes for installed: a file that cannot be opened counts as missing. */
  ghost function VersionSeen(s: State, env: Environment): Option<Version> {
    InstalledVersion(if env.versionReadable then s.versionFile else None)
  }

  /** The checks before any cryptography. */
  ghost function Admitted(s: State, inv: Invocation): (a: Admission)
    ensures a.Refuse? ==> 1 <= a.exit <= 7
    ensures a.Admit? ==> DeviceSplit(inv.package) == Some(a.sections)
  {
    var data := inv.package;
    if HeaderCheck(data) != HeaderOk then Refuse(EXIT_MALFORMED_HEADER)
    else if !PlatformTagMatches(HeaderFields(data).platformTag) then Refuse(EXIT_PLATFORM_MISMATCH)
    else
      var candidate := ParseVersion(HeaderFields(data).fwVersion);
      var installed := VersionSeen(s, inv.env);
      if candidate.None? then Refuse(EXIT_MALFORMED_HEADER)
      else if installed.None? then Refuse(EXIT_GENERIC_FAILURE)
      else
        match DowngradeDecision(inv.env.host.sha, candidate.value, installed.value, inv.secret, inv.hashFile)
        case UpToDate => Refuse(EXIT_UP_TO_DATE)
        case Blocked => Refuse(EXIT_DOWNGRADE_BLOCKED)
        case Allow =>
          if DeviceSplit(data).None? then Refuse(EXIT_MALFORMED_HEADER)
          else if inv.env.freeSpace.None? then Refuse(EXIT_GENERIC_FAILURE)
          else if inv.env.freeSpace.value < |DeviceSplit(data).value.payload| then Refuse(EXIT_INSUFFICIENT_DISK_SPACE)
          else Admit(DeviceSplit(data).value, candidate.value)
  }

  datatype Opened = Closed(exit: nat, disk: Disk) | Plaintext(key: bytes, data: bytes, disk: Disk)

  /** Signature, key, ciphertext: in this order, each only after the one before succeeded. */
  function OpenPackage(env: Environment, d: Disk, x: Sections): Opened {
    if !env.signingKeyLoads then Closed(EXIT_GENERIC_FAILURE, d)
    else if !env.verifies(x.signedData, x.signature) then Closed(EXIT_SIGNATURE_FAILED, d)
    else
      var d1 := Logged(d, SignatureVerified(x.signedData, x.signature));
      if !env.deviceKeyLoads then Closed(EXIT_GENERIC_FAILURE, d1)
      else
        var key := env.unwrap(x.wrappedKey);
        if key.None? || |key.value| != AES_KEY_SIZE then Closed(EXIT_DECRYPTION_FAILED, d1)
        else
          var d2 := Logged(d1, KeyUnwrapped(key.value));
          var plaintext := env.decrypt(key.value, x.header.iv, x.payload);
          if plaintext.None? then Closed(EXIT_DECRYPTION_FAILED, d2)
          else Plaintext(key.value, plaintext.value, Logged(d2, PayloadDecrypted(plaintext.value)))
  }

  datatype Written = Written(ok: bool, file: Option<bytes>)

  /** The version file after writing `text`, and whether the write succeeded. */
  function WriteVersionFile(file: Option<bytes>, text: bytes, fault: Fault): Written {
    match fault
    case NoFault => Written(true, Some(text))
    case Refused => Written(false, file)
    case Short(n) => Written(false, Some(Cut(text, n)))
  }

  /** Installing the decrypted payload, and recording the version once that succeeded. */
  ghost function InstallAndRecord(s: State, env: Environment, plaintext: bytes, version: Version): RunResult {
    var r := Extract(env.host, s.disk, INSTALL_DIR, plaintext);
    if r.code != InstallOk then RunResult(InstallExit(r.code), State(s.versionFile, r.disk))
    else
      var text := VersionText(version);
      var w := WriteVersionFile(s.versionFile, text, env.versionFault);
      RunResult(if w.ok then EXIT_SUCCESS else EXIT_GENERIC_FAILURE, State(w.file, Logged(r.disk, WriteVersion(text))))
  }

  /** One invocation of the device program. */
  ghost function Run(s: State, inv: Invocation): RunResult {
    match Admitted(s, inv)
    case Refuse(exit) => RunResult(exit, s)
    case Admit(x, version) =>
      match OpenPackage(inv.env, s.disk, x)
      case Closed(exit, disk) => RunResult(exit, s.(disk := disk))
      case Plaintext(_, plaintext, disk) => InstallAndRecord(s.(disk := disk), inv.env, plaintext, version)
  }

  // ---- The program ----

  class Machine {
    var versionFile: Option<bytes>
    const fs: FileSystem

    constructor (s: State)
      ensures Current() == s && fresh(fs)
    {
      versionFile := s.versionFile;
      fs := new FileSystem(s.disk);
    }

    function Current(): State
      reads this, fs
    {
      State(versionFile, fs.disk)
    }

    /** The checks of main up to the disk space check; nothing is modified. */
    method Admissible(inv: Invocation) returns (a: Admission)
      ensures a == Admitted(Current(), inv)
    {
      hide ParseVersion, InstalledVersion, HeaderCheck, HeaderFields, PlatformTagMatches, PLATFORM_TAG;
      var data := inv.package;
      var header := new HeaderRecord();
      var headerCode := header.Parse(data);
      if headerCode != HeaderOk {
        return Refuse(EXIT_MALFORMED_HEADER);
      }
      ghost var fields := header.Value();
      if !PlatformTagMatches(header.platformTag) {
        return Refuse(EXIT_PLATFORM_MISMATCH);
      }
      var candidate := VersionParse(header.fwVersion);
      if candidate.None? {
        return Refuse(EXIT_MALFORMED_HEADER);
      }
      var installed := VersionReadInstalled(if inv.env.versionReadable then versionFile else None);
      if installed.None? {
        return Refuse(EXIT_GENERIC_FAILURE);
      }
      var decision := DowngradeCheck(inv.env.host.sha, candidate.value, installed.value, inv.secret,
          StoredHash(inv.hashFile));
      if decision == UpToDate {
        return Refuse(EXIT_UP_TO_DATE);
      }
      if decision == Blocked {
        return Refuse(EXIT_DOWNGRADE_BLOCKED);
      }
      var wrappedKeyEnd := HEADER_SIZE + header.wrappedKeyLength;
      var signatureEnd := wrappedKeyEnd + SIGNATURE_SIZE;
      if |data| < signatureEnd {
        return Refuse(EXIT_MALFORMED_HEADER);
      }
      var wrappedKey, ciphertext := data[HEADER_SIZE..wrappedKeyEnd], data[signatureEnd..];
      if inv.env.freeSpace.None? {
        return Refuse(EXIT_GENERIC_FAILURE);
      }
      if inv.env.freeSpace.value < |ciphertext| {
        return Refuse(EXIT_INSUFFICIENT_DISK_SPACE);
      }
      var signed := RebuildSignedData(data[..HEADER_SIZE], wrappedKey, ciphertext);
      var record := Header(header.platformTag, header.fwVersion, header.wrappedKeyLength, header.iv);
      return Admit(Sections(record, wrappedKey, data[wrappedKeyEnd..signatureEnd], ciphertext, signed[..]),
          candidate.value);
    }

    /** `main`, after its arguments and input are read. */
    method Invoke(inv: Invocation) returns (exit: nat)
      modifies this, fs
      ensures RunResult(exit, Current()) == Run(old(Current()), inv)
    {
      hide Admitted, Extract, VersionText;
      var env := inv.env;
      var admission := Admissible(inv);
      if admission.Refuse? {
        return admission.exit;
      }
      var x := admission.sections;
      if !env.signingKeyLoads {
        return EXIT_GENERIC_FAILURE;
      }
      if !env.verifies(x.signedData, x.signature) {
        return EXIT_SIGNATURE_FAILED;
      }
      fs.Note(SignatureVerified(x.signedData, x.signature));
      if !env.deviceKeyLoads {
        return EXIT_GENERIC_FAILURE;
      }
      var key := env.unwrap(x.wrappedKey);
      if key.None? || |key.value| != AES_KEY_SIZE {
        return EXIT_DECRYPTION_FAILED;
      }
      fs.Note(KeyUnwrapped(key.value));
      var plaintext := env.decrypt(key.value, x.header.iv, x.payload);
      if plaintext.None? {
        return EXIT_DECRYPTION_FAILED;
      }
      fs.Note(PayloadDecrypted(plaintext.value));
      var code := InstallerExtract(fs, env.host, INSTALL_DIR, plaintext.value);
      if code != InstallOk {
        return InstallExit(code);
      }
      var text := VersionText(admission.version);
      fs.Note(WriteVersion(text));
      var written := WriteVersionFile(versionFile, text, env.versionFault);
      versionFile := written.file;
      return if written.ok then EXIT_SUCCESS else EXIT_GENERIC_FAILURE;
    }
  }
}
