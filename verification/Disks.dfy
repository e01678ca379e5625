/** The file system as the installer meets it: a tree of named nodes, and a log of what was done. */
module Disks {
  import opened Bytes
  import opened Paths

  datatype Node = Directory | File(data: bytes)

  type Nodes = map<Location, Node>

  /** What a run of the device does, in order. Attempts are logged whether or not they succeed. */
  datatype Event =
    | SignatureVerified(signed: bytes, signature: bytes)
    | KeyUnwrapped(key: bytes)
    | PayloadDecrypted(plaintext: bytes)
    | ArchiveValidated(tar: bytes)
    | MakeDirectory(path: bytes)
    | OpenForWriting(path: bytes)
    | WriteVersion(text: bytes)

  /** What the hardware does to one operation: nothing, refuse it, or stop a write after `n` bytes. */
  datatype Fault = NoFault | Refused | Short(n: nat)

  /** The fault met by the operation logged at each position. */
  type FaultPlan = nat -> Fault

  datatype Disk = Disk(nodes: Nodes, log: seq<Event>)

  /** Whether an operation reported success, and the disk after it. */
  datatype Outcome = Outcome(ok: bool, disk: Disk)

  predicate IsDirectory(nodes: Nodes, at: Location) {
    at in nodes && nodes[at] == Directory
  }

  function Logged(d: Disk, e: Event): Disk {
    d.(log := d.log + [e])
  }

  /** `mkdir`, an existing node counting as success; below anything but a directory it fails. */
  function MakeDir(io: FaultPlan, d: Disk, path: bytes): Outcome {
    var at := Resolve(path);
    var d' := Logged(d, MakeDirectory(path));
    if io(|d.log|) != NoFault then Outcome(false, d')
    else if at != [] && !IsDirectory(d.nodes, at[..|at| - 1]) then Outcome(false, d')
    else if at == [] || at in d.nodes then Outcome(true, d')
    else Outcome(true, d'.(nodes := d.nodes[at := Directory]))
  }

  predicate NamesFile(path: bytes) {
    var parts := Split(path, SLASH);
    |parts| >= 1 && ProperName(parts[|parts| - 1])
  }

  /** `fopen` for truncating writing, one write of all the data, and `fclose`. */
  function WriteFile(io: FaultPlan, d: Disk, path: bytes, data: bytes): Outcome {
    var at := Resolve(path);
    var d' := Logged(d, OpenForWriting(path));
    if io(|d.log|) == Refused || !NamesFile(path) then Outcome(false, d')
    else if at == [] || !IsDirectory(d.nodes, at[..|at| - 1]) || IsDirectory(d.nodes, at) then Outcome(false, d')
    else
      match io(|d.log|)
      case Short(n) => Outcome(false, d'.(nodes := d.nodes[at := File(if n < |data| then data[..n] else data)]))
      case _ => Outcome(true, d'.(nodes := d.nodes[at := File(data)]))
  }

  /** The mounted file system. */
  class FileSystem {
    var disk: Disk

    constructor (d: Disk)
      ensures disk == d
    {
      disk := d;
    }

    method Mkdir(io: FaultPlan, path: bytes) returns (ok: bool)
      modifies this
      ensures Outcome(ok, disk) == MakeDir(io, old(disk), path)
    {
      var r := MakeDir(io, disk, path);
      ok, disk := r.ok, r.disk;
    }

    method Write(io: FaultPlan, path: bytes, data: bytes) returns (ok: bool)
      modifies this
      ensures Outcome(ok, disk) == WriteFile(io, old(disk), path, data)
    {
      var r := WriteFile(io, disk, path, data);
      ok, disk := r.ok, r.disk;
    }

    method Note(e: Event)
      modifies this
      ensures disk == Logged(old(disk), e)
    {
      disk := Logged(disk, e);
    }
  }

  // ---- What operations leave alone ----

  /** `d'` comes from `d` by operations inside `base`: the rest of the tree is untouched. */
  ghost predicate TouchesOnly(d: Disk, d': Disk, base: Location) {
    && d.log <= d'.log
    && forall at | !(base <= at) ::
         (at in d.nodes <==> at in d'.nodes) && (at in d.nodes ==> d.nodes[at] == d'.nodes[at])
  }

  lemma TouchesOnlyTransitive(d: Disk, d': Disk, d'': Disk, base: Location)
    requires TouchesOnly(d, d', base) && TouchesOnly(d', d'', base)
    ensures TouchesOnly(d, d'', base)
  {
  }

  lemma MakeDirTouches(io: FaultPlan, d: Disk, path: bytes, base: Location)
    requires base <= Resolve(path)
    ensures TouchesOnly(d, MakeDir(io, d, path).disk, base)
  {
    hide Resolve;
  }

  lemma WriteFileTouches(io: FaultPlan, d: Disk, path: bytes, data: bytes, base: Location)
    requires base <= Resolve(path)
    ensures TouchesOnly(d, WriteFile(io, d, path, data).disk, base)
  {
    hide Resolve, NamesFile;
  }
}
