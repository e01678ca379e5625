/** The device's reader of ustar archives: octal fields, header checksum, header block, entry list. */
module TarFormat {
  import opened Bytes
  import opened Paths
  import opened Results

  const BLOCK_SIZE: nat := 512
  const NAME_SIZE: nat := 100
  const SIZE_FIELD_SIZE: nat := 12

  /** Every value a twelve-digit octal field can hold is below 8^12. */
  const SIZE_FIELD_LIMIT: nat := 0x10_0000_0000

  datatype EntryKind = FileEntry | DirectoryEntry

  /** An archive member: its data are the `size` bytes of the archive buffer from `start`. */
  datatype Entry = Entry(path: bytes, kind: EntryKind, start: nat, size: nat)

  datatype HeaderResult = HeaderRejected(code: InstallResult) | HeaderAccepted(name: bytes, kind: EntryKind, size: nat)

  datatype StepResult = Reject(code: InstallResult) | EndOfArchive | Member(entry: Entry, next: nat)

  datatype TarResult = TarOk(entries: seq<Entry>) | TarError(code: InstallResult)

  // ---- Octal fields ----

  predicate IsPadding(c: byte) {
    c == NUL || c == SPACE
  }

  predicate IsOctalDigit(c: byte) {
    48 <= c <= 55
  }

  ghost predicate AllOctal(s: bytes) {
    forall i | 0 <= i < |s| :: IsOctalDigit(s[i])
  }

  ghost function OctalValue(digits: bytes): nat
    requires AllOctal(digits)
  {
    if digits == [] then 0
    else
      var init, last := digits[..|digits| - 1], digits[|digits| - 1];
      OctalValue(init) * 8 + last as int - 48
  }

  lemma OctalValuePush(field: bytes, first: nat, i: nat)
    requires first <= i < |field|
    requires forall k | first <= k <= i :: IsOctalDigit(field[k])
    ensures OctalValue(field[first..i + 1]) == OctalValue(field[first..i]) * 8 + field[i] as int - 48
  {
    assert field[first..i + 1][..i - first] == field[first..i];
  }

  ghost function PowerOf8(n: nat): nat {
    if n == 0 then 1 else 8 * PowerOf8(n - 1)
  }

  lemma {:induction false} OctalValueBound(digits: bytes)
    requires AllOctal(digits)
    ensures OctalValue(digits) < PowerOf8(|digits|)
  {
    if digits != [] {
      OctalValueBound(digits[..|digits| - 1]);
    }
  }

  lemma {:induction false} PowerOf8Monotone(m: nat, n: nat)
    requires m <= n
    ensures PowerOf8(m) <= PowerOf8(n)
  {
    if m < n {
      PowerOf8Monotone(m, n - 1);
    }
  }

  /** A field of at most twelve digits cannot reach 8^12. */
  lemma PowerOf8Bound(width: nat)
    requires width <= SIZE_FIELD_SIZE
    ensures PowerOf8(width) <= SIZE_FIELD_LIMIT
  {
    PowerOf8Monotone(width, SIZE_FIELD_SIZE);
    assert PowerOf8(12) == SIZE_FIELD_LIMIT;
  }

  /** The layout the reader accepts: padding, one run of digits, then padding or the end of the field. */
  ghost predicate OctalLayout(field: bytes, first: nat, end: nat) {
    && first < end <= |field|
    && (forall i | 0 <= i < first :: IsPadding(field[i]))
    && (forall i | first <= i < end :: IsOctalDigit(field[i]))
    && (end < |field| ==> IsPadding(field[end]))
  }

  /** The layout of a field is unique. */
  lemma OctalLayoutUnique(field: bytes, first: nat, end: nat, first': nat, end': nat)
    requires OctalLayout(field, first, end) && OctalLayout(field, first', end')
    ensures first == first' && end == end'
  {
    assert IsOctalDigit(field[first]) && IsOctalDigit(field[first']);
    assert end < |field| ==> !IsOctalDigit(field[end]);
    assert end' < |field| ==> !IsOctalDigit(field[end']);
  }

  /** The field's value, in `size_t` arithmetic; None when it has no such layout. */
  ghost function OctalField(field: bytes): Option<nat> {
    if exists first: nat, end: nat :: OctalLayout(field, first, end) then
      var first: nat, end: nat :| OctalLayout(field, first, end);
      Some(OctalValue(field[first..end]) % SIZE_MODULUS)
    else
      None
  }

  lemma OctalFieldValue(field: bytes, first: nat, end: nat)
    requires OctalLayout(field, first, end)
    ensures OctalField(field) == Some(OctalValue(field[first..end]) % SIZE_MODULUS)
  {
    forall first': nat, end': nat | OctalLayout(field, first', end')
      ensures first' == first && end' == end
    {
      OctalLayoutUnique(field, first, end, first', end');
    }
  }

  /** A field short enough for its digits to fit a word is read without wrap-around. */
  lemma OctalFieldBound(field: bytes)
    requires |field| <= SIZE_FIELD_SIZE
    ensures OctalField(field).Some? ==> OctalField(field).value < SIZE_FIELD_LIMIT
  {
    if first: nat, end: nat :| OctalLayout(field, first, end) {
      OctalFieldValue(field, first, end);
      OctalValueBound(field[first..end]);
      PowerOf8Bound(end - first);
    }
  }

  lemma WholeWords(n: nat, words: nat)
    ensures (n + words * SIZE_MODULUS) % SIZE_MODULUS == n % SIZE_MODULUS
  {
    assert n + words * SIZE_MODULUS == (n / SIZE_MODULUS + words) * SIZE_MODULUS + n % SIZE_MODULUS;
  }

  lemma WordShift(value: nat, digit: nat)
    ensures (value % SIZE_MODULUS * 8 + digit) % SIZE_MODULUS == (value * 8 + digit) % SIZE_MODULUS
  {
    WholeWords(value % SIZE_MODULUS * 8 + digit, value / SIZE_MODULUS * 8);
  }

  method ParseOctalField(field: bytes) returns (r: Option<nat>)
    ensures r == OctalField(field)
  {
    var value: nat := 0;
    var i := 0;
    var seenDigit := false;
    ghost var first := 0;
    while i < |field|
      invariant first <= i <= |field|
      invariant seenDigit <==> first < i
      invariant !seenDigit ==> first == i
      invariant forall k | 0 <= k < first :: IsPadding(field[k])
      invariant forall k | first <= k < i :: IsOctalDigit(field[k])
      invariant value == OctalValue(field[first..i]) % SIZE_MODULUS
    {
      var c := field[i];
      if c == NUL || c == SPACE {
        if seenDigit {
          break;
        }
        first := i + 1;
        i := i + 1;
        assert field[first..i] == [];
        continue;
      }
      if c < 48 || c > 55 {
        return None;
      }
      seenDigit := true;
      OctalValuePush(field, first, i);
      WordShift(OctalValue(field[first..i]), c - 48);
      value := (value * 8 + (c - 48)) % SIZE_MODULUS;
      i := i + 1;
    }
    if !seenDigit {
      return None;
    }
    assert OctalLayout(field, first, i);
    OctalFieldValue(field, first, i);
    return Some(value);
  }

  // ---- Header checksum ----

  function SumOfBytes(s: bytes): nat {
    if s == [] then 0 else SumOfBytes(s[..|s| - 1]) + s[|s| - 1]
  }

  lemma {:induction false} SumOfBytesBound(s: bytes)
    ensures SumOfBytes(s) <= 255 * |s|
  {
    if s != [] {
      SumOfBytesBound(s[..|s| - 1]);
    }
  }

  /** The header with its checksum field read as eight spaces. */
  function Masked(header: bytes): (m: bytes)
    requires |header| == BLOCK_SIZE
    ensures |m| == BLOCK_SIZE
  {
    header[..148] + seq(8, _ => SPACE) + header[156..]
  }

  ghost function HeaderChecksum(header: bytes): nat
    requires |header| == BLOCK_SIZE
  {
    SumOfBytes(Masked(header))
  }

  method ComputeHeaderChecksum(header: bytes) returns (sum: nat)
    requires |header| == BLOCK_SIZE
    ensures sum == HeaderChecksum(header)
  {
    sum := 0;
    ghost var masked := Masked(header);
    var i := 0;
    while i < BLOCK_SIZE
      invariant 0 <= i <= BLOCK_SIZE
      invariant sum == SumOfBytes(masked[..i])
    {
      assert masked[..i + 1] == masked[..i] + [masked[i]];
      if 148 <= i < 148 + 8 {
        sum := sum + SPACE;
      } else {
        sum := sum + header[i];
      }
      i := i + 1;
    }
    assert masked[..i] == masked;
  }

  // ---- Header block ----

  predicate AllZero(s: bytes) {
    forall i | 0 <= i < |s| :: s[i] == 0
  }

  method IsAllZero(block: bytes) returns (zero: bool)
    ensures zero <==> AllZero(block)
  {
    var i := 0;
    while i < |block|
      invariant i <= |block|
      invariant AllZero(block[..i])
    {
      if block[i] != 0 {
        return false;
      }
      i := i + 1;
    }
    assert block[..i] == block;
    return true;
  }

  /** What the reader makes of one non-zero header block, in the order it checks. */
  ghost function ParseHeader(header: bytes): (r: HeaderResult)
    requires |header| == BLOCK_SIZE
    ensures r.HeaderAccepted? ==>
              r.size < SIZE_FIELD_LIMIT && NUL !in r.name && SafePath(r.name) && |r.name| <= NAME_SIZE
    ensures r.HeaderRejected? ==> r.code in {MalformedTar, UnsupportedEntry, UnsafePath}
  {
    var name := CString(header[..NAME_SIZE]);
    var typeflag := header[156];
    CStringIsPrefix(header[..NAME_SIZE]);
    OctalFieldBound(header[124..136]);
    if OctalField(header[148..156]) != Some(HeaderChecksum(header)) then HeaderRejected(MalformedTar)
    else if !AllZero(header[345..500]) then HeaderRejected(UnsupportedEntry)
    else if !SafePath(name) then HeaderRejected(UnsafePath)
    else if typeflag !in {48, 0, 53} then HeaderRejected(UnsupportedEntry)
    else if OctalField(header[124..136]).None? then HeaderRejected(MalformedTar)
    else if typeflag == 53 then HeaderAccepted(name, DirectoryEntry, 0)
    else HeaderAccepted(name, FileEntry, OctalField(header[124..136]).value)
  }

  method ReadHeader(header: bytes) returns (r: HeaderResult)
    requires |header| == BLOCK_SIZE
    ensures r == ParseHeader(header)
  {
    var storedChecksum := ParseOctalField(header[148..156]);
    if storedChecksum.None? {
      return HeaderRejected(MalformedTar);
    }
    var checksum := ComputeHeaderChecksum(header);
    if storedChecksum.value != checksum {
      return HeaderRejected(MalformedTar);
    }
    var nameLength := BoundedStrlen(header[..NAME_SIZE]);
    var name := header[..NAME_SIZE][..nameLength];
    var noPrefix := IsAllZero(header[345..500]);
    if !noPrefix {
      return HeaderRejected(UnsupportedEntry);
    }
    var safe := TarPathIsSafe(name);
    if !safe {
      return HeaderRejected(UnsafePath);
    }
    var typeflag := header[156];
    var kind;
    if typeflag == 48 || typeflag == 0 {
      kind := FileEntry;
    } else if typeflag == 53 {
      kind := DirectoryEntry;
    } else {
      return HeaderRejected(UnsupportedEntry);
    }
    var size := ParseOctalField(header[124..136]);
    if size.None? {
      return HeaderRejected(MalformedTar);
    }
    return HeaderAccepted(name, kind, if kind.DirectoryEntry? then 0 else size.value);
  }

  // ---- The entry list ----

  /** The whole blocks an entry of `size` bytes occupies, in bytes. */
  function PaddedSize(size: nat): (p: nat)
    ensures size <= p < size + BLOCK_SIZE && p % BLOCK_SIZE == 0
  {
    var blocks := (size + BLOCK_SIZE - 1) / BLOCK_SIZE;
    assert size + BLOCK_SIZE - 1 == blocks * BLOCK_SIZE + (size + BLOCK_SIZE - 1) % BLOCK_SIZE;
    assert blocks * BLOCK_SIZE % BLOCK_SIZE == 0;
    blocks * BLOCK_SIZE
  }

  /** The offset after an entry as the C code computes it, every operation wrapping at 2^64. */
  function NextOffset(offset: nat, size: nat): nat {
    var dataBlocks := (size + BLOCK_SIZE - 1) % SIZE_MODULUS / BLOCK_SIZE;
    var dataOffset := (offset + BLOCK_SIZE) % SIZE_MODULUS;
    (dataOffset + dataBlocks * BLOCK_SIZE % SIZE_MODULUS) % SIZE_MODULUS
  }

  /** The overflow test is exact: it fires just when the true sum does not fit a word, and otherwise
      the computed offset is the true one. */
  lemma OverflowTestIsExact(offset: nat, size: nat)
    requires offset < SIZE_MODULUS && size < SIZE_FIELD_LIMIT
    ensures NextOffset(offset, size) < offset <==> offset + BLOCK_SIZE + PaddedSize(size) >= SIZE_MODULUS
    ensures !(NextOffset(offset, size) < offset) ==> NextOffset(offset, size) == offset + BLOCK_SIZE + PaddedSize(size)
  {
    var padded := PaddedSize(size);
    assert padded < SIZE_FIELD_LIMIT + BLOCK_SIZE;
    var dataOffset := (offset + BLOCK_SIZE) % SIZE_MODULUS;
    assert dataOffset
        == if offset + BLOCK_SIZE < SIZE_MODULUS then offset + BLOCK_SIZE else offset + BLOCK_SIZE - SIZE_MODULUS;
    assert NextOffset(offset, size) == (dataOffset + padded) % SIZE_MODULUS;
  }

  /** One iteration of the reader's loop, at an offset inside or at the end of the buffer. */
  ghost function Step(tar: bytes, offset: nat): (r: StepResult)
    requires offset <= |tar| < SIZE_MODULUS
    ensures r.Member? ==>
              && offset + BLOCK_SIZE <= |tar|
              && r.entry.start == offset + BLOCK_SIZE
              && r.next == r.entry.start + PaddedSize(r.entry.size) <= |tar|
              && NUL !in r.entry.path && SafePath(r.entry.path) && |r.entry.path| <= NAME_SIZE
    ensures r.EndOfArchive? <==> offset + BLOCK_SIZE <= |tar| && AllZero(tar[offset..offset + BLOCK_SIZE])
    ensures r.Reject? ==> r.code in {MalformedTar, UnsupportedEntry, UnsafePath}
  {
    if |tar| - offset < BLOCK_SIZE then Reject(MalformedTar)
    else if AllZero(tar[offset..offset + BLOCK_SIZE]) then EndOfArchive
    else
      match ParseHeader(tar[offset..offset + BLOCK_SIZE])
      case HeaderRejected(code) => Reject(code)
      case HeaderAccepted(name, kind, size) =>
        var next := NextOffset(offset, size);
        OverflowTestIsExact(offset, size);
        if next < offset || next > |tar| then Reject(MalformedTar)
        else Member(Entry(name, kind, offset + BLOCK_SIZE, size), next)
  }

  /** The entries from `offset` on, up to the end-of-archive block; one bad entry spoils them all. */
  ghost function TarFrom(tar: bytes, offset: nat): (r: TarResult)
    requires offset <= |tar| < SIZE_MODULUS
    ensures r.TarError? ==> r.code in {MalformedTar, UnsupportedEntry, UnsafePath}
    decreases |tar| - offset
  {
    match Step(tar, offset)
    case Reject(code) => TarError(code)
    case EndOfArchive => TarOk([])
    case Member(entry, next) => Prepend([entry], TarFrom(tar, next))
  }

  ghost function Prepend(first: seq<Entry>, rest: TarResult): TarResult {
    if rest.TarOk? then TarOk(first + rest.entries) else rest
  }

  ghost function ParseTar(tar: bytes): TarResult
    requires |tar| < SIZE_MODULUS
  {
    TarFrom(tar, 0)
  }

  /** Doubles the entry array when it is full, as `realloc` does. */
  method Grow<T(0)>(items: array<T>, count: nat, initial: nat) returns (bigger: array<T>)
    requires count <= items.Length && initial > 0
    ensures bigger.Length == if count < items.Length then items.Length
                             else if items.Length == 0 then initial
                             else 2 * items.Length
    ensures bigger.Length > count && bigger[..count] == items[..count]
    ensures bigger == items || fresh(bigger)
  {
    if count < items.Length {
      return items;
    }
    bigger := new T[if items.Length == 0 then initial else items.Length * 2];
    var i := 0;
    while i < count
      invariant i <= count
      invariant bigger[..i] == items[..i]
    {
      bigger[i] := items[i];
      i := i + 1;
    }
  }

  /** The checks of one iteration of the reader's loop. */
  method TarStep(tar: bytes, offset: nat) returns (r: StepResult)
    requires offset < |tar| < SIZE_MODULUS
    ensures r == Step(tar, offset)
  {
    if |tar| - offset < BLOCK_SIZE {
      return Reject(MalformedTar);
    }
    var block := tar[offset..offset + BLOCK_SIZE];
    var zero := IsAllZero(block);
    if zero {
      return EndOfArchive;
    }
    var header := ReadHeader(block);
    if header.HeaderRejected? {
      return Reject(header.code);
    }
    var next := NextOffset(offset, header.size);
    if next < offset || next > |tar| {
      return Reject(MalformedTar);
    }
    return Member(Entry(header.name, header.kind, offset + BLOCK_SIZE, header.size), next);
  }

  /** `fota_tar_parse`: fills a growing array, and hands back an empty one on any error. */
  method TarParse(tar: bytes) returns (code: InstallResult, entries: array<Entry>, count: nat)
    requires |tar| < SIZE_MODULUS
    ensures count <= entries.Length && fresh(entries)
    ensures code == InstallOk ==> ParseTar(tar) == TarOk(entries[..count])
    ensures code != InstallOk ==> ParseTar(tar) == TarError(code) && count == 0
  {
    entries, count := new Entry[0], 0;
    var offset := 0;
    var endOfArchive := false;
    while offset < |tar|
      invariant offset <= |tar|
      invariant count <= entries.Length && fresh(entries)
      invariant !endOfArchive
      invariant ParseTar(tar) == Prepend(entries[..count], TarFrom(tar, offset))
      decreases |tar| - offset
    {
      var step := TarStep(tar, offset);
      if step.Reject? {
        return step.code, new Entry[0], 0;
      }
      if step.EndOfArchive? {
        endOfArchive := true;
        break;
      }
      hide Step, ParseHeader, PaddedSize, SafePath;
      PrependTwice(entries[..count], step.entry, TarFrom(tar, step.next));
      ghost var before := entries[..count];
      entries := Grow(entries, count, 16);
      entries[count] := step.entry;
      count := count + 1;
      assert entries[..count] == before + [step.entry];
      offset := step.next;
    }
    if !endOfArchive {
      return MalformedTar, new Entry[0], 0;
    }
    return InstallOk, entries, count;
  }

  lemma PrependTwice(first: seq<Entry>, entry: Entry, rest: TarResult)
    ensures Prepend(first, Prepend([entry], rest)) == Prepend(first + [entry], rest)
  {
    if rest.TarOk? {
      assert first + ([entry] + rest.entries) == first + [entry] + rest.entries;
    }
  }
}
