/** The cross-check of the archive against its manifest. */
module ManifestCheck {
  import opened Bytes
  import opened Results
  import opened Counting
  import opened TarFormat
  import opened TarWriter
  import opened ManifestFormat

  const MANIFEST_NAME: bytes := Ascii("manifest.json")

  // ---- Hexadecimal ----

  function Hex(s: bytes): (h: bytes)
    ensures |h| == 2 * |s|
  {
    seq(2 * |s|, i requires 0 <= i < 2 * |s| => HexDigit(if i % 2 == 0 then s[i / 2] / 16 else s[i / 2] % 16))
  }

  lemma HexAt(s: bytes, k: nat)
    requires k < |s|
    ensures Hex(s)[2 * k] == HexDigit(s[k] / 16) && Hex(s)[2 * k + 1] == HexDigit(s[k] % 16)
  {
  }

  /** The digits, in order: `0` to `9`, then lower-case `a` to `f`. */
  const DIGITS: bytes := [48, 49, 50, 51, 52, 53, 54, 55, 56, 57, 97, 98, 99, 100, 101, 102]

  /** Two digits a byte, the high half first, lower case. */
  lemma HexIsLowerCase(s: bytes, k: nat)
    requires k < |s|
    ensures |Hex(s)| == 2 * |s|
    ensures exists high, low | 0 <= high < 16 && 0 <= low < 16 ::
              s[k] == 16 * high + low && Hex(s)[2 * k] == DIGITS[high] && Hex(s)[2 * k + 1] == DIGITS[low]
  {
    HexAt(s, k);
    var high, low := s[k] / 16, s[k] % 16;
    assert s[k] == 16 * high + low && Hex(s)[2 * k] == DIGITS[high] && Hex(s)[2 * k + 1] == DIGITS[low];
  }

  /** Different bytes print differently. */
  lemma HexIsInjective(s: bytes, t: bytes)
    ensures Hex(s) == Hex(t) <==> s == t
    ensures NUL !in Hex(s) && Printable(Hex(s))
  {
    if Hex(s) == Hex(t) {
      forall k | 0 <= k < |s| ensures s[k] == t[k] {
        HexAt(s, k);
        HexAt(t, k);
      }
    }
  }

  method BytesToHexLower(s: bytes, out: array<byte>)
    requires out.Length > 2 * |s|
    modifies out
    ensures out[..2 * |s|] == Hex(s) && out[2 * |s|] == NUL
  {
    var i := 0;
    while i < |s|
      invariant i <= |s|
      invariant forall k | 0 <= k < 2 * i :: out[k] == Hex(s)[k]
    {
      HexAt(s, i);
      out[i * 2] := HexDigit(s[i] / 16);
      out[i * 2 + 1] := HexDigit(s[i] % 16);
      i := i + 1;
    }
    out[|s| * 2] := NUL;
  }

  // ---- Looking up entries ----

  ghost predicate Names(e: Entry, path: bytes) {
    e.kind == FileEntry && e.path == path
  }

  ghost predicate IsFirst(entries: seq<Entry>, path: bytes, i: nat) {
    && i < |entries| && Names(entries[i], path)
    && forall j | 0 <= j < i :: !Names(entries[j], path)
  }

  /** The first file entry of this name at or after `from`. */
  ghost function FirstFile(entries: seq<Entry>, path: bytes, from: nat := 0): (r: Option<nat>)
    requires from <= |entries|
    requires forall j | 0 <= j < from :: !Names(entries[j], path)
    ensures r.Some? ==> IsFirst(entries, path, r.value)
    ensures r.None? ==> forall j | 0 <= j < |entries| :: !Names(entries[j], path)
    decreases |entries| - from
  {
    if from == |entries| then None
    else if Names(entries[from], path) then Some(from)
    else FirstFile(entries, path, from + 1)
  }

  method FindEntry(entries: array<Entry>, count: nat, path: bytes) returns (index: Option<nat>)
    requires count <= entries.Length
    ensures index == FirstFile(entries[..count], path)
  {
    var i := 0;
    while i < count
      invariant i <= count
      invariant forall j | 0 <= j < i :: !Names(entries[j], path)
    {
      if entries[i].kind == FileEntry && entries[i].path == path {
        return Some(i);
      }
      i := i + 1;
    }
    return None;
  }

  // ---- The check ----

  /** A file to be installed: any file entry but the manifest. */
  predicate IsPayload(e: Entry) {
    e.kind == FileEntry && e.path != MANIFEST_NAME
  }

  function Payload(entries: seq<Entry>): (p: seq<Entry>)
    ensures forall e :: e in p <==> e in entries && IsPayload(e)
  {
    if entries == [] then []
    else
      var last := entries[|entries| - 1];
      assert entries == entries[..|entries| - 1] + [last];
      Payload(entries[..|entries| - 1]) + (if IsPayload(last) then [last] else [])
  }

  ghost predicate InBuffer(tar: bytes, entries: seq<Entry>) {
    forall e <- entries :: e.start + e.size <= |tar|
  }

  /** The record's path names a file entry, and the first such entry has the record's hash. */
  ghost predicate Matches(sha: bytes -> Digest, tar: bytes, entries: seq<Entry>, r: Record)
    requires InBuffer(tar, entries)
  {
    var i := FirstFile(entries, CString(r.path));
    i.Some? && Hex(sha(DataOf(tar, entries[i.value]))) == CString(r.hash)
  }

  /** What the device decides: every record matches, and there are as many records as payload files. */
  ghost predicate Agrees(sha: bytes -> Digest, tar: bytes, entries: seq<Entry>, records: seq<Record>)
    requires InBuffer(tar, entries)
  {
    && (forall k | 0 <= k < |records| :: Matches(sha, tar, entries, records[k]))
    && |records| == |Payload(entries)|
  }

  ghost function CheckManifest(sha: bytes -> Digest, tar: bytes, entries: seq<Entry>): InstallResult
    requires InBuffer(tar, entries)
  {
    match FirstFile(entries, MANIFEST_NAME)
    case None => ManifestMissing
    case Some(i) =>
      match ParseManifest(DataOf(tar, entries[i]))
      case None => ManifestParse
      case Some(records) => if Agrees(sha, tar, entries, records) then InstallOk else ManifestMismatch
  }

  lemma PayloadPush(entries: seq<Entry>, e: Entry)
    ensures Payload(entries + [e]) == Payload(entries) + (if IsPayload(e) then [e] else [])
  {
    assert (entries + [e])[..|entries|] == entries;
  }

  lemma PayloadCount(entries: seq<Entry>)
    requires entries != []
    ensures var last := |entries| - 1;
            |Payload(entries)| == |Payload(entries[..last])| + (if IsPayload(entries[last]) then 1 else 0)
  {
    hide IsPayload;
  }

  lemma NoPayload()
    ensures Payload([]) == []
  {
  }

  method CountPayload(entries: array<Entry>, count: nat) returns (n: nat)
    requires count <= entries.Length
    ensures n == |Payload(entries[..count])|
  {
    n := 0;
    var i := 0;
    while i < count
      invariant i <= count
      invariant n == |Payload(entries[..i])|
    {
      PayloadPush(entries[..i], entries[i]);
      assert entries[..i + 1] == entries[..i] + [entries[i]];
      if entries[i].kind == FileEntry && entries[i].path != MANIFEST_NAME {
        n := n + 1;
      }
      i := i + 1;
    }
  }

  /** One record against the entries; `index` is the entry it was matched with. */
  method MatchRecord(sha: bytes -> Digest, tar: bytes, entries: array<Entry>, count: nat, r: Record)
    returns (ok: bool, index: nat)
    requires count <= entries.Length && InBuffer(tar, entries[..count])
    ensures ok <==> Matches(sha, tar, entries[..count], r)
    ensures ok ==> index < count
  {
    var path := BoundedStrlen(r.path);
    var found := FindEntry(entries, count, r.path[..path]);
    if found.None? {
      return false, 0;
    }
    index := found.value;
    assert entries[..count][index] == entries[index];
    var digest := sha(DataOf(tar, entries[index]));
    var digestHex := new byte[HASH_LENGTH + 1];
    BytesToHexLower(digest, digestHex);
    var hash := BoundedStrlen(r.hash);
    return digestHex[..2 * DIGEST_SIZE] == r.hash[..hash], index;
  }

  /** `fota_verify_manifest`. It marks matched entries, but decides by the two counts alone. */
  method VerifyManifest(sha: bytes -> Digest, tar: bytes, entries: array<Entry>,
      count: nat) returns (code: InstallResult)
    requires count <= entries.Length && InBuffer(tar, entries[..count])
    ensures code == CheckManifest(sha, tar, entries[..count])
  {
    hide Matches, ParseManifest, FirstFile;
    var manifest := FindEntry(entries, count, MANIFEST_NAME);
    if manifest.None? {
      return ManifestMissing;
    }
    assert entries[..count][manifest.value] == entries[manifest.value];
    var parseCode, files, fileCount := ParseManifestFiles(DataOf(tar, entries[manifest.value]));
    if parseCode != InstallOk {
      return parseCode;
    }
    ghost var records := files[..fileCount];
    var payloadCount := CountPayload(entries, count);
    var matched := new byte[if count > 0 then count else 1](_ => 0);
    var matchedCount := 0;
    var i := 0;
    while i < fileCount
      invariant i <= fileCount && matchedCount == i
      invariant files[..fileCount] == records && fresh(matched) && matched.Length >= count
      invariant forall k | 0 <= k < i :: Matches(sha, tar, entries[..count], records[k])
    {
      assert files[i] == records[i];
      var ok, index := MatchRecord(sha, tar, entries, count, files[i]);
      if !ok {
        return ManifestMismatch;
      }
      matched[index] := 1;
      matchedCount := matchedCount + 1;
      i := i + 1;
    }
    if matchedCount != payloadCount {
      return ManifestMismatch;
    }
    return InstallOk;
  }

  // ---- What the check decides ----

  /** A path and the hexadecimal digest that goes with it. */
  datatype Item = Item(path: bytes, hash: bytes)

  ghost function Listed(records: seq<Record>): (items: seq<Item>)
    ensures |items| == |records|
  {
    seq(|records|, k requires 0 <= k < |records| => Item(CString(records[k].path), CString(records[k].hash)))
  }

  ghost function Present(sha: bytes -> Digest, tar: bytes, entries: seq<Entry>): (items: seq<Item>)
    requires InBuffer(tar, entries)
    ensures |items| == |Payload(entries)|
  {
    var p := Payload(entries);
    assert forall k | 0 <= k < |p| :: p[k] in entries;
    seq(|p|, k requires 0 <= k < |p| => Item(p[k].path, Hex(sha(DataOf(tar, p[k])))))
  }

  ghost function PathsOf(items: seq<Item>): (paths: seq<bytes>)
    ensures |paths| == |items|
  {
    seq(|items|, k requires 0 <= k < |items| => items[k].path)
  }

  /** The documented meaning: no payload path occurs twice, and the listed path/digest pairs are
      exactly those of the payload. */
  ghost predicate ExactListing(sha: bytes -> Digest, tar: bytes, entries: seq<Entry>, records: seq<Record>)
    requires InBuffer(tar, entries)
  {
    && NoDuplicates(PathsOf(Present(sha, tar, entries)))
    && Elements(Listed(records)) == Elements(Present(sha, tar, entries))
  }

  /** The listed paths are pairwise distinct and the manifest does not list itself. */
  ghost predicate ProperListing(records: seq<Record>) {
    NoDuplicates(PathsOf(Listed(records))) && MANIFEST_NAME !in PathsOf(Listed(records))
  }

  lemma PathOfItem(items: seq<Item>, path: bytes)
    ensures path in Elements(PathsOf(items)) <==> exists item :: item in items && item.path == path
  {
    if path in PathsOf(items) {
      var k :| 0 <= k < |items| && PathsOf(items)[k] == path;
      assert items[k] in items;
    }
    forall item | item in items && item.path == path ensures path in PathsOf(items) {
      var k :| 0 <= k < |items| && items[k] == item;
      assert PathsOf(items)[k] == path;
    }
  }

  /** Where paths are distinct, the path determines the item. */
  lemma SamePathSameItem(items: seq<Item>, a: Item, b: Item)
    requires NoDuplicates(PathsOf(items)) && a in items && b in items && a.path == b.path
    ensures a == b
  {
    var i :| 0 <= i < |items| && items[i] == a;
    var j :| 0 <= j < |items| && items[j] == b;
    assert PathsOf(items)[i] == PathsOf(items)[j];
  }

  lemma ListedItem(records: seq<Record>, k: nat)
    requires k < |records|
    ensures Item(CString(records[k].path), CString(records[k].hash)) in Listed(records)
  {
    assert Listed(records)[k] == Item(CString(records[k].path), CString(records[k].hash));
  }

  lemma PresentItem(sha: bytes -> Digest, tar: bytes, entries: seq<Entry>, i: nat)
    requires InBuffer(tar, entries) && i < |entries| && IsPayload(entries[i])
    ensures Item(entries[i].path, Hex(sha(DataOf(tar, entries[i])))) in Present(sha, tar, entries)
  {
    var p := Payload(entries);
    assert entries[i] in p;
    var k :| 0 <= k < |p| && p[k] == entries[i];
    assert Present(sha, tar, entries)[k] == Item(entries[i].path, Hex(sha(DataOf(tar, entries[i]))));
  }

  lemma ManifestIsNotPresent(sha: bytes -> Digest, tar: bytes, entries: seq<Entry>)
    requires InBuffer(tar, entries)
    ensures MANIFEST_NAME !in PathsOf(Present(sha, tar, entries))
  {
    var p := Payload(entries);
    forall k | 0 <= k < |p| ensures PathsOf(Present(sha, tar, entries))[k] != MANIFEST_NAME {
      assert p[k] in p;
    }
  }

  /** A record that matches, and is not the manifest, lists an item that is present. */
  lemma MatchIsPresent(sha: bytes -> Digest, tar: bytes, entries: seq<Entry>, r: Record)
    requires InBuffer(tar, entries) && Matches(sha, tar, entries, r)
    requires CString(r.path) != MANIFEST_NAME
    ensures Item(CString(r.path), CString(r.hash)) in Present(sha, tar, entries)
  {
    PresentItem(sha, tar, entries, FirstFile(entries, CString(r.path)).value);
  }

  /** Where payload paths are distinct, listing a present item is matching. */
  lemma PresentIsMatch(sha: bytes -> Digest, tar: bytes, entries: seq<Entry>, r: Record)
    requires InBuffer(tar, entries)
    requires NoDuplicates(PathsOf(Present(sha, tar, entries)))
    requires Item(CString(r.path), CString(r.hash)) in Present(sha, tar, entries)
    ensures Matches(sha, tar, entries, r)
  {
    var p, items := Payload(entries), Present(sha, tar, entries);
    var item := Item(CString(r.path), CString(r.hash));
    var k :| 0 <= k < |p| && items[k] == item;
    assert p[k] in p && Names(p[k], item.path);
    var first := FirstFile(entries, item.path);
    var e := entries[first.value];
    PresentItem(sha, tar, entries, first.value);
    SamePathSameItem(items, Item(e.path, Hex(sha(DataOf(tar, e)))), item);
  }

  /** The check is exact on a proper listing: it accepts if and only if the listing is the payload. */
  lemma CheckIsExact(sha: bytes -> Digest, tar: bytes, entries: seq<Entry>, records: seq<Record>)
    requires InBuffer(tar, entries) && ProperListing(records)
    ensures Agrees(sha, tar, entries, records) <==> ExactListing(sha, tar, entries, records)
  {
    var listed, present := Listed(records), Present(sha, tar, entries);
    ElementsSize(PathsOf(listed));
    ElementsSize(PathsOf(present));
    if Agrees(sha, tar, entries, records) {
      AgreementIsExact(sha, tar, entries, records);
    }
    if ExactListing(sha, tar, entries, records) {
      forall k | 0 <= k < |records| ensures Matches(sha, tar, entries, records[k]) {
        ListedItem(records, k);
        assert Item(CString(records[k].path), CString(records[k].hash)) in Elements(listed);
        PresentIsMatch(sha, tar, entries, records[k]);
      }
      SameItemsSamePaths(listed, present);
    }
  }

  lemma SameItemsSamePaths(a: seq<Item>, b: seq<Item>)
    requires Elements(a) == Elements(b)
    ensures Elements(PathsOf(a)) == Elements(PathsOf(b))
  {
    forall path ensures path in Elements(PathsOf(a)) <==> path in Elements(PathsOf(b)) {
      PathOfItem(a, path);
      PathOfItem(b, path);
      assert forall item :: item in a <==> item in Elements(a);
      assert forall item :: item in b <==> item in Elements(b);
    }
  }

  /** The pigeonhole: as many distinct listed paths as payload files, all present, leave no file unlisted. */
  lemma AgreementIsExact(sha: bytes -> Digest, tar: bytes, entries: seq<Entry>, records: seq<Record>)
    requires InBuffer(tar, entries) && ProperListing(records)
    requires Agrees(sha, tar, entries, records)
    ensures ExactListing(sha, tar, entries, records)
  {
    var listed, present := Listed(records), Present(sha, tar, entries);
    forall item | item in listed ensures item in present {
      var k :| 0 <= k < |listed| && listed[k] == item;
      assert PathsOf(listed)[k] in PathsOf(listed);
      MatchIsPresent(sha, tar, entries, records[k]);
    }
    forall path | path in Elements(PathsOf(listed)) ensures path in Elements(PathsOf(present)) {
      PathOfItem(listed, path);
      PathOfItem(present, path);
    }
    ElementsSize(PathsOf(listed));
    ElementsSize(PathsOf(present));
    SubsetSize(Elements(PathsOf(listed)), Elements(PathsOf(present)));
    forall item | item in present ensures item in listed {
      PathOfItem(present, item.path);
      PathOfItem(listed, item.path);
      var other :| other in listed && other.path == item.path;
      SamePathSameItem(present, item, other);
    }
  }

  /** On any listing: an accepting check means what is documented if and only if the listing is proper. */
  lemma AcceptanceIsExactIffProper(sha: bytes -> Digest, tar: bytes, entries: seq<Entry>, records: seq<Record>)
    requires InBuffer(tar, entries) && Agrees(sha, tar, entries, records)
    ensures ExactListing(sha, tar, entries, records) <==> ProperListing(records)
  {
    var listed, present := Listed(records), Present(sha, tar, entries);
    if ProperListing(records) {
      CheckIsExact(sha, tar, entries, records);
    }
    if ExactListing(sha, tar, entries, records) {
      SameItemsSamePaths(listed, present);
      ElementsSize(PathsOf(listed));
      ElementsSize(PathsOf(present));
      ManifestIsNotPresent(sha, tar, entries);
      assert MANIFEST_NAME !in Elements(PathsOf(present));
    }
  }

  lemma TwoFilesAndManifest(a: Entry, b: Entry, manifest: Entry)
    requires IsPayload(a) && IsPayload(b) && !IsPayload(manifest)
    ensures Payload([a, b, manifest]) == [a, b]
  {
    hide IsPayload;
    var entries := [a, b, manifest];
    assert entries[..2] == [a, b] && [a, b][..1] == [a] && [a][..0] == [];
    assert Payload([a]) == Payload([a][..0]) + [a] == [a];
    assert Payload([a, b]) == Payload([a, b][..1]) + [b] == [a, b];
    assert Payload(entries) == Payload(entries[..2]) + [];
  }

  /** Listing the first of two files twice satisfies the device, and is no exact listing. */
  lemma RepeatedListingAgrees(sha: bytes -> Digest, tar: bytes, a: Entry, b: Entry, manifest: Entry, r: Record)
    requires InBuffer(tar, [a, b, manifest])
    requires IsPayload(a) && IsPayload(b) && !IsPayload(manifest)
    requires CString(r.path) == a.path && CString(r.hash) == Hex(sha(DataOf(tar, a)))
    ensures Agrees(sha, tar, [a, b, manifest], [r, r]) && !ExactListing(sha, tar, [a, b, manifest], [r, r])
  {
    var entries, records := [a, b, manifest], [r, r];
    TwoFilesAndManifest(a, b, manifest);
    assert entries[0] == a;
    FirstIs(entries, a.path, 0);
    assert Matches(sha, tar, entries, r);
    assert PathsOf(Listed(records))[0] == PathsOf(Listed(records))[1];
    AcceptanceIsExactIffProper(sha, tar, entries, records);
  }

  lemma FirstIs(entries: seq<Entry>, path: bytes, i: nat)
    requires IsFirst(entries, path, i)
    ensures FirstFile(entries, path) == Some(i)
  {
    assert Names(entries[i], path) && forall j | 0 <= j < i :: !Names(entries[j], path);
  }

  // ---- The verdicts, from the entries themselves ----

  /** Entry `i` is the first regular file called manifest.json. */
  ghost predicate HoldsManifest(entries: seq<Entry>, i: nat) {
    && i < |entries| && entries[i].kind == FileEntry
    && entries[i].path == [109, 97, 110, 105, 102, 101, 115, 116, 46, 106, 115, 111, 110]
    && forall j | 0 <= j < i :: !(entries[j].kind == FileEntry && entries[j].path == entries[i].path)
  }

  /** The regular files other than manifest.json. */
  ghost function Others(entries: seq<Entry>): set<nat> {
    set k: nat | k < |entries| && entries[k].kind == FileEntry
                 && entries[k].path != [109, 97, 110, 105, 102, 101, 115, 116, 46, 106, 115, 111, 110]
  }

  /** The first regular file of the record's path has the record's digest. */
  ghost predicate Vouches(sha: bytes -> Digest, tar: bytes, entries: seq<Entry>, r: Record)
    requires InBuffer(tar, entries)
  {
    exists i: nat ::
      && i < |entries| && entries[i].kind == FileEntry && entries[i].path == CString(r.path)
      && (forall j | 0 <= j < i :: !(entries[j].kind == FileEntry && entries[j].path == entries[i].path))
      && Hex(sha(tar[entries[i].start..entries[i].start + entries[i].size])) == CString(r.hash)
  }

  /** The manifest text is this list, as many records as there are other files, each with its digest. */
  ghost predicate Lists(sha: bytes -> Digest, tar: bytes, entries: seq<Entry>, text: bytes, records: seq<Record>)
    requires InBuffer(tar, entries)
  {
    && ParseManifest(text) == Some(records)
    && |records| == |Others(entries)|
    && forall k | 0 <= k < |records| :: Vouches(sha, tar, entries, records[k])
  }

  lemma ManifestNameSpelled()
    ensures MANIFEST_NAME == [109, 97, 110, 105, 102, 101, 115, 116, 46, 106, 115, 111, 110]
  {
  }

  lemma OthersGrow(entries: seq<Entry>, last: nat)
    requires |entries| == last + 1
    ensures |Others(entries)| == |Others(entries[..last])| + if IsPayload(entries[last]) then 1 else 0
  {
    ManifestNameSpelled();
    hide MANIFEST_NAME;
    assert Others(entries) == Others(entries[..last]) + if IsPayload(entries[last]) then {last} else {};
  }

  lemma {:induction false} OthersCounted(entries: seq<Entry>)
    ensures |Payload(entries)| == |Others(entries)|
  {
    hide IsPayload;
    if entries == [] {
      assert Others(entries) == {};
    } else {
      var last := |entries| - 1;
      hide Others, Payload;
      OthersCounted(entries[..last]);
      OthersGrow(entries, last);
      PayloadCount(entries);
    }
  }

  lemma FirstIsOnly(entries: seq<Entry>, path: bytes, i: nat)
    ensures FirstFile(entries, path) == Some(i) <==> IsFirst(entries, path, i)
  {
    if IsFirst(entries, path, i) {
      FirstIs(entries, path, i);
    }
  }

  lemma MatchesIsVouches(sha: bytes -> Digest, tar: bytes, entries: seq<Entry>, r: Record)
    requires InBuffer(tar, entries)
    ensures Matches(sha, tar, entries, r) <==> Vouches(sha, tar, entries, r)
  {
    hide FirstFile, Hex, CString;
    var path := CString(r.path);
    forall i: nat ensures FirstFile(entries, path) == Some(i) <==> IsFirst(entries, path, i) {
      FirstIsOnly(entries, path, i);
    }
    if Matches(sha, tar, entries, r) {
      var i := FirstFile(entries, path).value;
      assert IsFirst(entries, path, i);
      assert entries[i] in entries;
    }
    if Vouches(sha, tar, entries, r) {
      var i: nat :| i < |entries| && entries[i].kind == FileEntry && entries[i].path == CString(r.path)
        && (forall j | 0 <= j < i :: !(entries[j].kind == FileEntry && entries[j].path == entries[i].path))
        && Hex(sha(tar[entries[i].start..entries[i].start + entries[i].size])) == CString(r.hash);
      assert IsFirst(entries, path, i);
    }
  }

  /** The four verdicts of `fota_verify_manifest`, each if and only if. */
  lemma VerdictIsExact(sha: bytes -> Digest, tar: bytes, entries: seq<Entry>)
    requires InBuffer(tar, entries)
    ensures var code := CheckManifest(sha, tar, entries);
            && (code == ManifestMissing <==> forall i: nat :: !HoldsManifest(entries, i))
            && (code == ManifestParse <==> exists i: nat ::
                  HoldsManifest(entries, i) && ParseManifest(DataOf(tar, entries[i])) == None)
            && (code == InstallOk <==> exists i: nat, records ::
                  HoldsManifest(entries, i) && Lists(sha, tar, entries, DataOf(tar, entries[i]), records))
            && (code == ManifestMismatch <==> exists i: nat, records ::
                  && HoldsManifest(entries, i) && ParseManifest(DataOf(tar, entries[i])) == Some(records)
                  && !Lists(sha, tar, entries, DataOf(tar, entries[i]), records))
  {
    ManifestNameSpelled();
    hide MANIFEST_NAME, FirstFile, ParseManifest, Matches, Vouches, Payload, Others;
    forall i: nat ensures HoldsManifest(entries, i) <==> FirstFile(entries, MANIFEST_NAME) == Some(i) {
      FirstIsOnly(entries, MANIFEST_NAME, i);
    }
    OthersCounted(entries);
    forall r: Record ensures Matches(sha, tar, entries, r) <==> Vouches(sha, tar, entries, r) {
      MatchesIsVouches(sha, tar, entries, r);
    }
    var first := FirstFile(entries, MANIFEST_NAME);
    if first.Some? {
      var parsed := ParseManifest(DataOf(tar, entries[first.value]));
      if parsed.Some? {
        assert Agrees(sha, tar, entries, parsed.value)
          <==> Lists(sha, tar, entries, DataOf(tar, entries[first.value]), parsed.value);
      }
      assert HoldsManifest(entries, first.value);
    }
  }
}
