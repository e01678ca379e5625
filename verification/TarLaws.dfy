/** What holds of the archive reader on every input: bounds, and what prefixes and suffixes do. */
module TarLaws {
  import opened Bytes
  import opened Paths
  import opened Results
  import opened TarFormat
  import opened TarWriter

  /** Entry `e` lies in the buffer, block-aligned, with at least one more block after its data. */
  ghost predicate WellPlaced(tar: bytes, e: Entry) {
    && e.start % BLOCK_SIZE == 0
    && e.start + PaddedSize(e.size) + BLOCK_SIZE <= |tar|
    && NUL !in e.path && SafePath(e.path) && |e.path| <= NAME_SIZE
  }

  /** `e`'s blocks, and the header of the entry after it, end before `f`'s data begin. */
  ghost predicate Before(e: Entry, f: Entry) {
    e.start + PaddedSize(e.size) + BLOCK_SIZE <= f.start
  }

  /** In the buffer after `offset`, in increasing order, and pairwise disjoint. */
  ghost predicate InOrder(tar: bytes, offset: nat, entries: seq<Entry>) {
    && (forall i | 0 <= i < |entries| :: WellPlaced(tar, entries[i]) && offset + BLOCK_SIZE <= entries[i].start)
    && (forall i, j | 0 <= i < j < |entries| :: Before(entries[i], entries[j]))
  }

  lemma InOrderCons(tar: bytes, offset: nat, entry: Entry, rest: seq<Entry>)
    requires WellPlaced(tar, entry) && entry.start == offset + BLOCK_SIZE
    requires InOrder(tar, entry.start + PaddedSize(entry.size), rest)
    ensures InOrder(tar, offset, [entry] + rest)
  {
    hide PaddedSize, SafePath;
    var entries := [entry] + rest;
    forall i, j | 0 <= i < j < |entries| ensures Before(entries[i], entries[j]) {
      assert entries[j] == rest[j - 1];
      assert i > 0 ==> entries[i] == rest[i - 1] && Before(rest[i - 1], rest[j - 1]);
    }
  }

  /** On any bytes: the accepted entries lie in the buffer, in increasing order and disjoint. */
  lemma {:induction false} EntriesAreInBounds(tar: bytes, offset: nat)
    requires offset <= |tar| < SIZE_MODULUS && offset % BLOCK_SIZE == 0
    requires TarFrom(tar, offset).TarOk?
    ensures InOrder(tar, offset, TarFrom(tar, offset).entries)
    decreases |tar| - offset
  {
    hide InOrder, ParseHeader, PaddedSize, SafePath;
    match Step(tar, offset) {
      case EndOfArchive =>
        NothingInOrder(tar, offset);
      case Member(entry, next) =>
        hide Step;
        Aligned(offset, PaddedSize(entry.size));
        EntriesAreInBounds(tar, next);
        NonEmptyTail(tar, next);
        InOrderCons(tar, offset, entry, TarFrom(tar, next).entries);
    }
  }

  lemma Aligned(offset: nat, padded: nat)
    requires offset % BLOCK_SIZE == 0 && padded % BLOCK_SIZE == 0
    ensures (offset + BLOCK_SIZE) % BLOCK_SIZE == 0
    ensures (offset + BLOCK_SIZE + padded) % BLOCK_SIZE == 0
  {
    var blocks := offset / BLOCK_SIZE + 1;
    assert offset + BLOCK_SIZE == blocks * BLOCK_SIZE;
    assert offset + BLOCK_SIZE + padded == (blocks + padded / BLOCK_SIZE) * BLOCK_SIZE;
  }

  lemma NothingInOrder(tar: bytes, offset: nat)
    ensures InOrder(tar, offset, [])
  {
  }

  /** Reading succeeds only where at least one whole block is left. */
  lemma NonEmptyTail(tar: bytes, offset: nat)
    requires offset <= |tar| < SIZE_MODULUS
    requires TarFrom(tar, offset).TarOk?
    ensures offset + BLOCK_SIZE <= |tar|
  {
    hide ParseHeader;
  }

  /** The offset of the zero block that ends an accepted archive. */
  ghost function EndOf(tar: bytes, offset: nat): (end: nat)
    requires offset <= |tar| < SIZE_MODULUS
    requires TarFrom(tar, offset).TarOk?
    ensures offset <= end && end + BLOCK_SIZE <= |tar|
    decreases |tar| - offset
  {
    if Step(tar, offset).Member? then EndOf(tar, Step(tar, offset).next) else offset
  }

  /** Two buffers that agree on the first `n` bytes give the same block at an offset before `n`. */
  lemma SameBlock(tar: bytes, tar': bytes, offset: nat, n: nat)
    requires offset + BLOCK_SIZE <= n <= |tar| && n <= |tar'|
    requires tar[..n] == tar'[..n]
    ensures tar[offset..offset + BLOCK_SIZE] == tar'[offset..offset + BLOCK_SIZE]
  {
    assert tar[..n][offset..offset + BLOCK_SIZE] == tar[offset..offset + BLOCK_SIZE];
    assert tar'[..n][offset..offset + BLOCK_SIZE] == tar'[offset..offset + BLOCK_SIZE];
  }

  lemma SameStep(tar: bytes, tar': bytes, offset: nat, n: nat)
    requires offset + BLOCK_SIZE <= n <= |tar| < SIZE_MODULUS && n <= |tar'| < SIZE_MODULUS
    requires tar[..n] == tar'[..n]
    requires Step(tar, offset).Member?
    ensures Step(tar', offset) == if Step(tar, offset).next <= |tar'| then Step(tar, offset) else Reject(MalformedTar)
  {
    hide ParseHeader, AllZero;
    SameBlock(tar, tar', offset, n);
  }

  /** Bytes after the first zero block never change the result. */
  lemma {:induction false} SuffixIsIgnored(tar: bytes, tar': bytes, offset: nat)
    requires offset <= |tar| < SIZE_MODULUS && offset <= |tar'| < SIZE_MODULUS
    requires TarFrom(tar, offset).TarOk?
    requires var n := EndOf(tar, offset) + BLOCK_SIZE; n <= |tar'| && tar[..n] == tar'[..n]
    ensures TarFrom(tar', offset) == TarFrom(tar, offset)
    decreases |tar| - offset
  {
    hide ParseHeader, AllZero, PaddedSize;
    var n := EndOf(tar, offset) + BLOCK_SIZE;
    if Step(tar, offset).Member? {
      SameStep(tar, tar', offset, n);
      SuffixIsIgnored(tar, tar', Step(tar, offset).next);
    } else {
      SameBlock(tar, tar', offset, n);
      assert Step(tar', offset).EndOfArchive?;
    }
  }

  /** Every prefix of an accepted archive that stops before its zero block is complete is malformed. */
  lemma {:induction false} TruncationIsRejected(tar: bytes, offset: nat, n: nat)
    requires offset <= n <= |tar| < SIZE_MODULUS
    requires TarFrom(tar, offset).TarOk? && n < EndOf(tar, offset) + BLOCK_SIZE
    ensures TarFrom(tar[..n], offset) == TarError(MalformedTar)
    decreases |tar| - offset
  {
    hide ParseHeader, AllZero, PaddedSize;
    var cut := tar[..n];
    if n - offset >= BLOCK_SIZE {
      assert cut[..n] == tar[..n];
      SameStep(tar, cut, offset, n);
      if Step(tar, offset).next <= n {
        TruncationIsRejected(tar, Step(tar, offset).next, n);
      }
    }
  }

  /** The first zero block of a written archive comes right after its members. */
  lemma {:induction false} EndOfWritten(tar: bytes, images: seq<Image>, names: seq<bytes>, k: nat)
    requires |tar| < SIZE_MODULUS
    requires k <= |images| == |names|
    requires forall i | 0 <= i < |images| :: ReadsAs(images[i], names[i])
    requires Body(images) + Zeros(BLOCK_SIZE) <= tar
    ensures OffsetOf(images, k) <= |tar| && TarFrom(tar, OffsetOf(images, k)).TarOk?
    ensures EndOf(tar, OffsetOf(images, k)) == |Body(images)|
    decreases |images| - k
  {
    hide ParseHeader, Denotes, ReadsAs, PaddedSize, Step;
    ReadFrom(tar, images, names, k);
    if k == |images| {
      assert images[..k] == images;
      assert tar[|Body(images)|..|Body(images)| + BLOCK_SIZE] == Zeros(BLOCK_SIZE);
    } else {
      assert Body(images) <= tar;
      StepAt(tar, images, k, names[k]);
      EndOfWritten(tar, images, names, k + 1);
    }
  }

  /** Any cut of a written archive before the end of its first zero block is rejected with no entries. */
  lemma TruncatedArchiveIsRejected(files: seq<SourceFile>, n: nat)
    requires AllStorable(files) && AllSafe(files)
    requires |Archive(files)| < SIZE_MODULUS
    requires n < |Body(ImagesOf(files))| + BLOCK_SIZE
    ensures n <= |Archive(files)|
    ensures ParseTar(Archive(files)[..n]) == TarError(MalformedTar)
  {
    hide Header, ReadsAs, ParseHeader, Storable, Body, TarFrom, EndOf;
    var images := ImagesOf(files);
    var names := seq(|files|, k requires 0 <= k < |files| => files[k].path);
    forall k | 0 <= k < |files| ensures ReadsAs(images[k], names[k]) {
      FileReadsAs(files[k]);
    }
    var body := Body(images);
    var padding := RecordPadding(|body| + 2 * BLOCK_SIZE);
    TwoZeroBlocks(body, padding);
    EndOfWritten(Archive(files), images, names, 0);
    NothingBeforeFirst(images);
    TruncationIsRejected(Archive(files), 0, n);
  }

  // ---- Exactly which archives are accepted, and why the others are not ----

  /** The checksum field holds the sum of the block with that field read as spaces. */
  ghost predicate Summed(h: bytes)
    requires |h| == 512
  {
    OctalField(h[148..156]) == Some(SumOfBytes(h[..148] + [32, 32, 32, 32, 32, 32, 32, 32] + h[156..]))
  }

  ghost predicate Zeroed(s: bytes) {
    forall i | 0 <= i < |s| :: s[i] == 0
  }

  /** What a header block must be for this name, kind and size to be read from it. */
  ghost predicate Heads(h: bytes, name: bytes, kind: EntryKind, size: nat)
    requires |h| == 512
  {
    && !Zeroed(h) && Summed(h) && Zeroed(h[345..500])
    && name == CString(h[..100]) && PlainPath(name)
    && (if kind == FileEntry then h[156] in {48, 0} && OctalField(h[124..136]) == Some(size)
        else h[156] == 53 && OctalField(h[124..136]).Some? && size == 0)
  }

  /** Why the reader stops with an error at this offset, by the first rule that is broken. */
  ghost predicate Refuses(tar: bytes, o: nat, code: InstallResult)
    requires o <= |tar|
  {
    if |tar| - o < 512 then code == MalformedTar
    else
      var h := tar[o..o + 512];
      && !Zeroed(h)
      && if !Summed(h) then code == MalformedTar
         else if !Zeroed(h[345..500]) then code == UnsupportedEntry
         else if !PlainPath(CString(h[..100])) then code == UnsafePath
         else if h[156] !in {0, 48, 53} then code == UnsupportedEntry
         else if OctalField(h[124..136]).None? then code == MalformedTar
         else
           && code == MalformedTar
           && o + 512 + PaddedSize(if h[156] == 53 then 0 else OctalField(h[124..136]).value) > |tar|
  }

  /** The sum is the one that adds up over parts and is the byte itself on a single byte. */
  lemma {:induction false} SumIsAdditive(s: bytes, t: bytes, c: byte)
    ensures SumOfBytes(s + t) == SumOfBytes(s) + SumOfBytes(t) && SumOfBytes([c]) == c
  {
    assert [c][..0] == [];
    if t == [] {
      assert s + t == s;
    } else {
      SumIsAdditive(s, t[..|t| - 1], c);
      assert (s + t)[..|s + t| - 1] == s + t[..|t| - 1];
    }
  }

  lemma SpacesWritten()
    ensures seq(8, _ => SPACE) == [32, 32, 32, 32, 32, 32, 32, 32]
  {
  }

  /** One header block: what is read from it, exactly. */
  lemma HeaderIsExact(h: bytes)
    requires |h| == 512
    ensures Summed(h) <==> OctalField(h[148..156]) == Some(HeaderChecksum(h))
    ensures Zeroed(h) <==> AllZero(h)
    ensures !Zeroed(h) ==>
              forall name, kind, size ::
                ParseHeader(h) == HeaderAccepted(name, kind, size) <==> Heads(h, name, kind, size)
    ensures ParseHeader(h) == HeaderRejected(UnsafePath) <==>
              Summed(h) && Zeroed(h[345..500]) && !PlainPath(CString(h[..100]))
    ensures ParseHeader(h) == HeaderRejected(UnsupportedEntry) <==>
              Summed(h) && (!Zeroed(h[345..500]) || (PlainPath(CString(h[..100])) && h[156] !in {0, 48, 53}))
    ensures ParseHeader(h) == HeaderRejected(MalformedTar) <==>
              !Summed(h) || (Zeroed(h[345..500]) && PlainPath(CString(h[..100])) && h[156] in {0, 48, 53}
                             && OctalField(h[124..136]).None?)
  {
    hide OctalField, SumOfBytes, CString, SafePath, PlainPath;
    SpacesWritten();
    SafePathIsExact(CString(h[..100]));
  }

  /** One step of the reader, exactly. */
  lemma StepIsExact(tar: bytes, o: nat)
    requires o <= |tar| < SIZE_MODULUS
    ensures Step(tar, o) == EndOfArchive <==> o + 512 <= |tar| && Zeroed(tar[o..o + 512])
    ensures forall e, next :: Step(tar, o) == Member(e, next) <==>
              && o + 512 <= |tar| && Heads(tar[o..o + 512], e.path, e.kind, e.size)
              && e.start == o + 512 && next == e.start + PaddedSize(e.size) <= |tar|
    ensures forall code :: Step(tar, o) == Reject(code) <==> Refuses(tar, o, code)
  {
    hide OctalField, PlainPath, SafePath, CString, Summed, Zeroed, AllZero, HeaderChecksum, PaddedSize;
    if o + 512 <= |tar| {
      var h := tar[o..o + 512];
      HeaderIsExact(h);
      var header := ParseHeader(h);
      if header.HeaderAccepted? {
        OverflowTestIsExact(o, header.size);
        assert !Zeroed(h) ==> Heads(h, header.name, header.kind, header.size);
      }
      hide ParseHeader, NextOffset;
    }
  }

  /** Entries that follow one another from `from` on, each behind a header block that says so. */
  ghost predicate Chain(tar: bytes, from: nat, entries: seq<Entry>)
    requires from <= |tar|
    decreases |entries|
  {
    entries == []
    || var e := entries[0];
       && from + 512 <= |tar| && Heads(tar[from..from + 512], e.path, e.kind, e.size)
       && e.start == from + 512 && e.start + PaddedSize(e.size) <= |tar|
       && Chain(tar, e.start + PaddedSize(e.size), entries[1..])
  }

  /** The offset behind the last of these entries. */
  ghost function ChainEnd(tar: bytes, from: nat, entries: seq<Entry>): (end: nat)
    requires from <= |tar| && Chain(tar, from, entries)
    ensures end <= |tar|
    decreases |entries|
  {
    if entries == [] then from
    else ChainEnd(tar, entries[0].start + PaddedSize(entries[0].size), entries[1..])
  }

  lemma {:induction false} ChainIsRead(tar: bytes, from: nat, entries: seq<Entry>)
    requires from <= |tar| < SIZE_MODULUS && Chain(tar, from, entries)
    ensures TarFrom(tar, from) == Prepend(entries, TarFrom(tar, ChainEnd(tar, from, entries)))
    decreases |entries|
  {
    hide Step, Heads, PaddedSize;
    if entries == [] {
      PrependNothing(TarFrom(tar, from));
    } else {
      StepIsExact(tar, from);
      var e := entries[0];
      var next := e.start + PaddedSize(e.size);
      assert Step(tar, from) == Member(e, next);
      ChainIsRead(tar, next, entries[1..]);
      PrependCons(e, entries[1..], TarFrom(tar, ChainEnd(tar, from, entries)));
      assert [e] + entries[1..] == entries;
    }
  }

  lemma PrependNothing(r: TarResult)
    ensures Prepend([], r) == r
  {
    if r.TarOk? {
      assert [] + r.entries == r.entries;
    }
  }

  lemma PrependCons(e: Entry, rest: seq<Entry>, r: TarResult)
    ensures Prepend([e], Prepend(rest, r)) == Prepend([e] + rest, r)
  {
    if r.TarOk? {
      assert [e] + (rest + r.entries) == [e] + rest + r.entries;
    }
  }

  /** Every reading follows a chain of entries up to the block where it stops. */
  lemma {:induction false} ReadingIsChain(tar: bytes, from: nat) returns (entries: seq<Entry>)
    requires from <= |tar| < SIZE_MODULUS
    ensures Chain(tar, from, entries) && !Step(tar, ChainEnd(tar, from, entries)).Member?
    decreases |tar| - from
  {
    hide Heads, PaddedSize, ParseHeader;
    StepIsExact(tar, from);
    match Step(tar, from) {
      case Member(e, next) =>
        hide Step;
        var rest := ReadingIsChain(tar, next);
        entries := [e] + rest;
        assert entries[1..] == rest;
      case _ =>
        entries := [];
    }
  }

  /** What `fota_tar_parse` accepts: a list of entries, if and only if they follow one another from the start
      of the buffer, each behind a header block that names it, up to a zero block. */
  lemma AcceptedIsExact(tar: bytes, entries: seq<Entry>)
    requires |tar| < SIZE_MODULUS
    ensures ParseTar(tar) == TarOk(entries) <==>
              && Chain(tar, 0, entries)
              && var end := ChainEnd(tar, 0, entries); end + 512 <= |tar| && Zeroed(tar[end..end + 512])
  {
    hide Step, Chain, ChainEnd, Zeroed, PaddedSize;
    if Chain(tar, 0, entries) {
      ChainIsRead(tar, 0, entries);
      StepIsExact(tar, ChainEnd(tar, 0, entries));
      if Step(tar, ChainEnd(tar, 0, entries)) == EndOfArchive {
        PrependEnd(entries);
      }
    }
    if ParseTar(tar) == TarOk(entries) {
      var found := ReadingIsChain(tar, 0);
      ChainIsRead(tar, 0, found);
      StepIsExact(tar, ChainEnd(tar, 0, found));
      PrependEnd(found);
    }
  }

  lemma PrependEnd(entries: seq<Entry>)
    ensures Prepend(entries, TarOk([])) == TarOk(entries)
    ensures forall code :: Prepend(entries, TarError(code)) == TarError(code)
  {
  }

  /** A chain of entries leads to a block that is refused for the reason the code stands for. */
  ghost predicate Broken(tar: bytes, code: InstallResult) {
    exists entries :: Chain(tar, 0, entries) && Refuses(tar, ChainEnd(tar, 0, entries), code)
  }

  /** And what it refuses: with this code, if and only if such a chain of entries leads to a block that is
      refused for the reason the code stands for. */
  lemma RefusedIsExact(tar: bytes, code: InstallResult)
    requires |tar| < SIZE_MODULUS
    ensures ParseTar(tar) == TarError(code) <==> Broken(tar, code)
  {
    hide Step, Chain, ChainEnd, Refuses, PaddedSize;
    if entries :| Chain(tar, 0, entries) && Refuses(tar, ChainEnd(tar, 0, entries), code) {
      ChainIsRead(tar, 0, entries);
      StepIsExact(tar, ChainEnd(tar, 0, entries));
      PrependEnd(entries);
    }
    if ParseTar(tar) == TarError(code) {
      var found := ReadingIsChain(tar, 0);
      ChainIsRead(tar, 0, found);
      StepIsExact(tar, ChainEnd(tar, 0, found));
      PrependEnd(found);
    }
  }

  // ---- Octal fields, exactly ----

  /** Any padding of NULs and spaces before the digits, and any field ended by one or by its width, is read
      as the value of the digits. */
  lemma OctalFieldReads(padding: bytes, digits: bytes, rest: bytes)
    requires forall c <- padding :: c == 0 || c == 32
    requires digits != [] && forall c <- digits :: 48 <= c <= 55
    requires rest == [] || rest[0] == 0 || rest[0] == 32
    ensures AllOctal(digits) && OctalField(padding + digits + rest) == Some(OctalValue(digits) % SIZE_MODULUS)
  {
    var field := padding + digits + rest;
    var first, end := |padding|, |padding| + |digits|;
    assert field[first..end] == digits;
    forall i | 0 <= i < first ensures IsPadding(field[i]) {
      assert field[i] == padding[i] && padding[i] in padding;
    }
    forall i | first <= i < end ensures IsOctalDigit(field[i]) {
      assert field[i] == digits[i - first] && digits[i - first] in digits;
    }
    assert end < |field| ==> field[end] == rest[0];
    hide OctalField, OctalValue;
    OctalFieldValue(field, first, end);
  }

  /** And nothing else is read. */
  lemma OctalFieldNeedsDigits(field: bytes) returns (padding: bytes, digits: bytes, rest: bytes)
    requires OctalField(field).Some?
    ensures field == padding + digits + rest && digits != []
    ensures (forall c <- padding :: c == 0 || c == 32) && (forall c <- digits :: 48 <= c <= 55)
    ensures rest == [] || rest[0] == 0 || rest[0] == 32
  {
    var first: nat, end: nat :| OctalLayout(field, first, end);
    padding, digits, rest := field[..first], field[first..end], field[end..];
    assert forall i | 0 <= i < first :: IsPadding(field[i]);
    assert forall i | first <= i < end :: IsOctalDigit(field[i]);
  }
}
