/** The packager's ustar archives, byte for byte, and the proof that the device reads them back. */
module TarWriter {
  import opened Bytes
  import opened Paths
  import opened TarFormat

  const RECORD_SIZE: nat := 10240

  /** The header fields the device ignores. */
  datatype Meta = Meta(mode: nat, uid: nat, gid: nat, mtime: nat, uname: bytes, gname: bytes, device: bytes)

  datatype SourceFile = SourceFile(path: bytes, data: bytes, meta: Meta)

  /** What the ustar number and device fields can hold. */
  ghost predicate ValidMeta(m: Meta) {
    && m.mode < PowerOf8(7) && m.uid < PowerOf8(7) && m.gid < PowerOf8(7) && m.mtime < PowerOf8(11)
    && |m.device| == 16
  }

  /** A file the packager can store in a single plain ustar member. */
  ghost predicate Storable(f: SourceFile) {
    && 1 <= |f.path| <= NAME_SIZE && NUL !in f.path
    && |f.data| < PowerOf8(11)
    && ValidMeta(f.meta)
  }

  // ---- Fields ----

  function OctalText(n: nat, width: nat): (text: bytes)
    ensures |text| == width
  {
    if width == 0 then [] else
      var digit := n % 8;
      OctalText(n / 8, width - 1) + [48 + digit]
  }

  /** Fixed-width octal digits closed by a NUL. */
  function NumberField(n: nat, width: nat): (field: bytes)
    requires width > 0
    ensures |field| == width
  {
    OctalText(n, width - 1) + [NUL]
  }

  /** Text cut or NUL-padded to a fixed width. */
  function TextField(s: bytes, width: nat): (field: bytes)
    ensures |field| == width
  {
    if |s| >= width then s[..width] else s + Zeros(width - |s|)
  }

  lemma {:induction false} OctalTextValue(n: nat, width: nat)
    requires n < PowerOf8(width)
    ensures AllOctal(OctalText(n, width))
    ensures OctalValue(OctalText(n, width)) == n
  {
    if width > 0 {
      OctalTextValue(n / 8, width - 1);
      assert OctalText(n, width)[..width - 1] == OctalText(n / 8, width - 1);
    }
  }

  /** Printing then parsing an octal field is the identity, whatever follows the terminator. */
  lemma OctalRoundTrip(n: nat, width: nat, rest: bytes)
    requires 0 < width <= 12 && n < PowerOf8(width)
    ensures OctalField(OctalText(n, width) + [NUL] + rest) == Some(n)
  {
    hide OctalField, OctalText, OctalValue, PowerOf8;
    var text := OctalText(n, width);
    var field := text + [NUL] + rest;
    OctalTextValue(n, width);
    PowerOf8Bound(width);
    assert field[0..width] == text;
    assert forall i | 0 <= i < width :: field[i] == text[i];
    assert OctalLayout(field, 0, width);
    OctalFieldValue(field, 0, width);
  }

  lemma TextFieldCString(s: bytes, width: nat)
    requires |s| <= width && NUL !in s
    ensures CString(TextField(s, width)) == s
  {
    CStringStops(s, Zeros(width - |s|));
    assert TextField(s, width) == s + Zeros(width - |s|);
  }

  // ---- One member ----

  /** Name, mode, owner, group, size and time: the 148 bytes before the checksum. */
  function HeaderFront(path: bytes, size: nat, m: Meta): (front: bytes)
    ensures |front| == 148
  {
    TextField(path, NAME_SIZE)
    + (NumberField(m.mode, 8) + NumberField(m.uid, 8) + NumberField(m.gid, 8))
    + NumberField(size, SIZE_FIELD_SIZE)
    + NumberField(m.mtime, 12)
  }

  /** Type flag '0', empty link name, magic and version, owner names and device numbers. */
  function HeaderMiddle(m: Meta): (middle: bytes)
    requires |m.device| == 16
    ensures |middle| == 189 && middle[0] == 48
  {
    [48] + Zeros(100) + Ascii("ustar") + [NUL] + Ascii("00")
    + TextField(m.uname, 32) + TextField(m.gname, 32) + m.device
  }

  /** From the type flag on: the middle, an empty prefix field, and padding to the block. */
  function HeaderBack(m: Meta): (back: bytes)
    requires |m.device| == 16
    ensures |back| == 356
  {
    HeaderMiddle(m) + Zeros(155 + 12)
  }

  function UnsummedHeader(path: bytes, size: nat, m: Meta): (h: bytes)
    requires |m.device| == 16
    ensures |h| == BLOCK_SIZE
  {
    HeaderFront(path, size, m) + seq(8, _ => SPACE) + HeaderBack(m)
  }

  /** The header with its sum written over the first seven of the eight spaces. */
  function Header(path: bytes, size: nat, m: Meta): (h: bytes)
    requires |m.device| == 16
    ensures |h| == BLOCK_SIZE
  {
    var unsummed := UnsummedHeader(path, size, m);
    unsummed[..148] + (OctalText(SumOfBytes(unsummed), 6) + [NUL]) + unsummed[155..]
  }

  /** Seven bytes written over the start of the checksum field disturb nothing else. */
  lemma ChecksumSplice(front: bytes, sum: bytes, back: bytes, unsummed: bytes, h: bytes)
    requires |front| == 148 && |sum| == 7 && |back| == 356
    requires unsummed == front + seq(8, _ => SPACE) + back
    requires h == unsummed[..148] + sum + unsummed[155..]
    ensures |unsummed| == |h| == BLOCK_SIZE
    ensures h[..148] == front && h[148..156] == sum + [SPACE] && h[156..] == back
    ensures Masked(h) == unsummed
  {
    assert unsummed[..148] == front && unsummed[155..] == [SPACE] + back;
    assert h == front + (sum + [SPACE]) + back;
  }

  lemma HeaderLayout(path: bytes, size: nat, m: Meta)
    requires |m.device| == 16
    ensures var h := Header(path, size, m);
            var unsummed := UnsummedHeader(path, size, m);
            && h[..148] == HeaderFront(path, size, m)
            && h[148..156] == OctalText(SumOfBytes(unsummed), 6) + [NUL] + [SPACE]
            && h[156..] == HeaderBack(m)
            && Masked(h) == unsummed
  {
    hide HeaderFront, HeaderBack, SumOfBytes, OctalText, Masked;
    var unsummed := UnsummedHeader(path, size, m);
    var sum := OctalText(SumOfBytes(unsummed), 6) + [NUL];
    ChecksumSplice(HeaderFront(path, size, m), sum, HeaderBack(m), unsummed, Header(path, size, m));
  }

  lemma FrontFields(path: bytes, size: nat, m: Meta)
    ensures var front := HeaderFront(path, size, m);
            front[..NAME_SIZE] == TextField(path, NAME_SIZE) && front[124..136] == NumberField(size, SIZE_FIELD_SIZE)
  {
  }

  lemma BackFields(m: Meta)
    requires |m.device| == 16
    ensures HeaderBack(m)[0] == 48
    ensures AllZero(HeaderBack(m)[189..344])
  {
  }

  /** The device reads a written header as exactly the file it was written for; the path rules are its only filter. */
  lemma HeaderRoundTrip(f: SourceFile)
    requires Storable(f) && SafePath(f.path)
    ensures var h := Header(f.path, |f.data|, f.meta);
            ParseHeader(h) == HeaderAccepted(f.path, FileEntry, |f.data|) && !AllZero(h)
  {
    var h := Header(f.path, |f.data|, f.meta);
    var unsummed := UnsummedHeader(f.path, |f.data|, f.meta);
    HeaderLayout(f.path, |f.data|, f.meta);
    FrontFields(f.path, |f.data|, f.meta);
    BackFields(f.meta);
    var front := HeaderFront(f.path, |f.data|, f.meta);
    assert h[..NAME_SIZE] == front[..NAME_SIZE];
    assert h[124..136] == front[124..136];
    assert h[156] == h[156..][0];
    assert h[345..500] == h[156..][189..344];
    TextFieldCString(f.path, NAME_SIZE);
    SumOfBytesBound(unsummed);
    assert PowerOf8(6) == 262144;
    OctalRoundTrip(SumOfBytes(unsummed), 6, [SPACE]);
    OctalRoundTrip(|f.data|, 11, []);
    assert NumberField(|f.data|, 12) + [] == NumberField(|f.data|, 12);
    assert h[0] == front[..NAME_SIZE][0] == f.path[0];
    assert f.path[0] in f.path;
  }

  /** A written header, field by field. */
  lemma WrittenFields(f: SourceFile)
    requires Storable(f)
    ensures var h, m := Header(f.path, |f.data|, f.meta), f.meta;
            && |h| == 512
            && OctalField(h[100..108]) == Some(m.mode) && OctalField(h[108..116]) == Some(m.uid)
            && OctalField(h[116..124]) == Some(m.gid) && OctalField(h[124..136]) == Some(|f.data|)
            && OctalField(h[136..148]) == Some(m.mtime)
            && h[156] == 48 && h[157..257] == Zeros(100) && h[257..265] == [117, 115, 116, 97, 114, 0, 48, 48]
            && h[265..297] == TextField(m.uname, 32) && h[297..329] == TextField(m.gname, 32)
            && h[329..345] == m.device && h[345..512] == Zeros(167)
  {
    hide OctalField, OctalText, SumOfBytes, PowerOf8;
    var h, m := Header(f.path, |f.data|, f.meta), f.meta;
    HeaderLayout(f.path, |f.data|, m);
    var front, back := HeaderFront(f.path, |f.data|, m), HeaderBack(m);
    FrontNumbers(f.path, |f.data|, m);
    BackTexts(m);
    hide Header, HeaderFront, HeaderBack;
    assert h[100..108] == front[100..108] && h[108..116] == front[108..116] && h[116..124] == front[116..124];
    assert h[124..136] == front[124..136] && h[136..148] == front[136..148];
    assert h[156] == back[0] && h[157..257] == back[1..101] && h[257..265] == back[101..109];
    assert h[265..297] == back[109..141] && h[297..329] == back[141..173] && h[329..345] == back[173..189];
    assert h[345..512] == back[189..356];
    NumberReads(m.mode, 8);
    NumberReads(m.uid, 8);
    NumberReads(m.gid, 8);
    NumberReads(|f.data|, 12);
    NumberReads(m.mtime, 12);
  }

  lemma NumberReads(n: nat, width: nat)
    requires 0 < width <= 12 && n < PowerOf8(width - 1) && width > 1
    ensures OctalField(NumberField(n, width)) == Some(n)
  {
    OctalRoundTrip(n, width - 1, []);
    assert NumberField(n, width) + [] == NumberField(n, width);
  }

  lemma FrontNumbers(path: bytes, size: nat, m: Meta)
    ensures var front := HeaderFront(path, size, m);
            && front[100..108] == NumberField(m.mode, 8) && front[108..116] == NumberField(m.uid, 8)
            && front[116..124] == NumberField(m.gid, 8) && front[124..136] == NumberField(size, 12)
            && front[136..148] == NumberField(m.mtime, 12)
  {
    hide NumberField, TextField;
  }

  lemma BackTexts(m: Meta)
    requires |m.device| == 16
    ensures var back := HeaderBack(m);
            && back[0] == 48 && back[1..101] == Zeros(100) && back[101..109] == [117, 115, 116, 97, 114, 0, 48, 48]
            && back[109..141] == TextField(m.uname, 32) && back[141..173] == TextField(m.gname, 32)
            && back[173..189] == m.device && back[189..356] == Zeros(167)
  {
    hide TextField;
    assert Ascii("ustar") == [117, 115, 116, 97, 114] && Ascii("00") == [48, 48];
  }

  // ---- The archive ----

  /** A member as it stands in the archive: its header block and its data. */
  datatype Image = Image(header: bytes, data: bytes)

  function ImageOf(f: SourceFile): Image
    requires |f.meta.device| == 16
  {
    Image(Header(f.path, |f.data|, f.meta), f.data)
  }

  ghost function ImagesOf(files: seq<SourceFile>): (images: seq<Image>)
    requires AllStorable(files)
    ensures |images| == |files|
  {
    seq(|files|, k requires 0 <= k < |files| => ImageOf(files[k]))
  }

  ghost predicate AllStorable(files: seq<SourceFile>) {
    forall k | 0 <= k < |files| :: Storable(files[k])
  }

  ghost predicate AllSafe(files: seq<SourceFile>) {
    forall k | 0 <= k < |files| :: SafePath(files[k].path)
  }

  function Padding(size: nat): bytes {
    Zeros(PaddedSize(size) - size)
  }

  /** The members one after the other, each padded to whole blocks. */
  function Body(images: seq<Image>): bytes {
    if images == [] then []
    else
      var last := images[|images| - 1];
      Body(images[..|images| - 1]) + (last.header + last.data + Padding(|last.data|))
  }

  ghost function OffsetOf(images: seq<Image>, k: nat): nat
    requires k <= |images|
  {
    |Body(images[..k])|
  }

  function RecordPadding(used: nat): bytes {
    Zeros((RECORD_SIZE - used % RECORD_SIZE) % RECORD_SIZE)
  }

  /** The members, two zero blocks, and zeros up to a whole record. */
  ghost function Archive(files: seq<SourceFile>): bytes
    requires AllStorable(files)
  {
    var body := Body(ImagesOf(files));
    body + Zeros(2 * BLOCK_SIZE) + RecordPadding(|body| + 2 * BLOCK_SIZE)
  }

  lemma BodyPush(images: seq<Image>, k: nat)
    requires k < |images|
    ensures Body(images[..k + 1])
         == Body(images[..k]) + (images[k].header + images[k].data + Padding(|images[k].data|))
  {
    assert images[..k + 1][..k] == images[..k];
  }

  lemma {:induction false} BodyIsPrefix(images: seq<Image>, k: nat)
    requires k <= |images|
    ensures Body(images[..k]) <= Body(images)
    decreases |images| - k
  {
    if k == |images| {
      assert images[..k] == images;
    } else {
      BodyPush(images, k);
      BodyIsPrefix(images, k + 1);
    }
  }

  /** Cutting three known pieces out of a buffer that holds them one after the other. */
  lemma Pieces(tar: bytes, before: bytes, header: bytes, data: bytes, padding: bytes)
    requires before + (header + data + padding) <= tar
    ensures |before| + |header| + |data| + |padding| <= |tar|
    ensures tar[|before|..|before| + |header|] == header
    ensures tar[|before| + |header|..|before| + |header| + |data|] == data
  {
    var piece := header + data + padding;
    assert tar[|before|..|before| + |piece|] == piece;
    assert piece[..|header|] == header && piece[|header|..|header| + |data|] == data;
  }

  /** The k-th member stands at its offset in any buffer that starts with the members. */
  lemma MemberAt(tar: bytes, images: seq<Image>, k: nat)
    requires k < |images| && Body(images) <= tar && |images[k].header| == BLOCK_SIZE
    ensures var offset := OffsetOf(images, k);
            var start := offset + BLOCK_SIZE;
            && OffsetOf(images, k + 1) == start + PaddedSize(|images[k].data|) <= |tar|
            && tar[offset..start] == images[k].header
            && tar[start..start + |images[k].data|] == images[k].data
  {
    BodyPush(images, k);
    BodyIsPrefix(images, k + 1);
    Pieces(tar, Body(images[..k]), images[k].header, images[k].data, Padding(|images[k].data|));
  }

  /** An image the device accepts as a regular file called `name`. */
  ghost predicate ReadsAs(image: Image, name: bytes) {
    && |image.header| == BLOCK_SIZE
    && !AllZero(image.header)
    && |image.data| < SIZE_FIELD_LIMIT
    && ParseHeader(image.header) == HeaderAccepted(name, FileEntry, |image.data|)
  }

  /** The data an entry points at. */
  function DataOf(tar: bytes, e: Entry): bytes
    requires e.start + e.size <= |tar|
  {
    tar[e.start..e.start + e.size]
  }

  /** Entry `e` is a regular file with this name and these contents. */
  ghost predicate Denotes(tar: bytes, e: Entry, name: bytes, data: bytes) {
    && e.path == name
    && e.kind == FileEntry
    && e.start + e.size <= |tar|
    && DataOf(tar, e) == data
  }

  lemma StepOnBlock(tar: bytes, offset: nat, name: bytes, size: nat)
    requires |tar| < SIZE_MODULUS && size < SIZE_FIELD_LIMIT
    requires offset + BLOCK_SIZE + PaddedSize(size) <= |tar|
    requires !AllZero(tar[offset..offset + BLOCK_SIZE])
    requires ParseHeader(tar[offset..offset + BLOCK_SIZE]) == HeaderAccepted(name, FileEntry, size)
    ensures Step(tar, offset)
         == Member(Entry(name, FileEntry, offset + BLOCK_SIZE, size), offset + BLOCK_SIZE + PaddedSize(size))
  {
    hide ParseHeader;
    OverflowTestIsExact(offset, size);
  }

  lemma StepAt(tar: bytes, images: seq<Image>, k: nat, name: bytes)
    requires |tar| < SIZE_MODULUS
    requires k < |images| && Body(images) <= tar && ReadsAs(images[k], name)
    ensures var offset := OffsetOf(images, k);
            && OffsetOf(images, k + 1) <= |tar|
            && offset <= |tar|
            && Step(tar, offset).Member?
            && Step(tar, offset).next == OffsetOf(images, k + 1)
            && Denotes(tar, Step(tar, offset).entry, name, images[k].data)
  {
    hide ParseHeader, Step, AllZero, PaddedSize, Body;
    MemberAt(tar, images, k);
    StepOnBlock(tar, OffsetOf(images, k), name, |images[k].data|);
  }

  /** Reading from the k-th member on yields the k-th and later files, in order. */
  lemma {:induction false} ReadFrom(tar: bytes, images: seq<Image>, names: seq<bytes>, k: nat)
    requires |tar| < SIZE_MODULUS
    requires k <= |images| == |names|
    requires forall i | 0 <= i < |images| :: ReadsAs(images[i], names[i])
    requires Body(images) + Zeros(BLOCK_SIZE) <= tar
    ensures OffsetOf(images, k) <= |tar|
    ensures var r := TarFrom(tar, OffsetOf(images, k));
            && r.TarOk? && |r.entries| == |images| - k
            && forall i | k <= i < |images| :: Denotes(tar, r.entries[i - k], names[i], images[i].data)
    decreases |images| - k
  {
    hide ParseHeader, Step, Denotes, ReadsAs, PaddedSize;
    if k == |images| {
      assert images[..k] == images;
      var offset := |Body(images)|;
      assert tar[offset..offset + BLOCK_SIZE] == Zeros(BLOCK_SIZE);
    } else {
      assert Body(images) <= tar;
      StepAt(tar, images, k, names[k]);
      ReadFrom(tar, images, names, k + 1);
      var entry := Step(tar, OffsetOf(images, k)).entry;
      var r, rest := TarFrom(tar, OffsetOf(images, k)), TarFrom(tar, OffsetOf(images, k + 1));
      assert r == TarOk([entry] + rest.entries);
      forall i | k <= i < |images| ensures Denotes(tar, r.entries[i - k], names[i], images[i].data) {
        assert i > k ==> r.entries[i - k] == rest.entries[i - k - 1];
      }
    }
  }

  /** The entries are exactly the given files, in order and with their contents. */
  ghost predicate DenotesAll(tar: bytes, entries: seq<Entry>, files: seq<SourceFile>) {
    && |entries| == |files|
    && forall k | 0 <= k < |files| :: Denotes(tar, entries[k], files[k].path, files[k].data)
  }

  /** Tar round trip: the written members and one zero block, whatever comes after, parse to exactly
      the written files, in order and with their contents. */
  lemma TarRoundTrip(files: seq<SourceFile>, rest: bytes)
    requires AllStorable(files) && AllSafe(files)
    requires |Body(ImagesOf(files)) + Zeros(BLOCK_SIZE) + rest| < SIZE_MODULUS
    ensures var tar := Body(ImagesOf(files)) + Zeros(BLOCK_SIZE) + rest;
            ParseTar(tar).TarOk? && DenotesAll(tar, ParseTar(tar).entries, files)
  {
    hide Header, ReadsAs, ParseHeader, Storable, SafePath, Body, Denotes, TarFrom;
    var images := ImagesOf(files);
    var names := seq(|files|, k requires 0 <= k < |files| => files[k].path);
    forall k | 0 <= k < |files| ensures ReadsAs(images[k], names[k]) && images[k].data == files[k].data {
      FileReadsAs(files[k]);
    }
    hide ImagesOf;
    var tar := Body(images) + Zeros(BLOCK_SIZE) + rest;
    ReadFrom(tar, images, names, 0);
    NothingBeforeFirst(images);
    var entries := TarFrom(tar, 0).entries;
    forall k | 0 <= k < |files| ensures Denotes(tar, entries[k], files[k].path, files[k].data) {
      assert Denotes(tar, entries[k - 0], names[k], images[k].data);
    }
  }

  lemma NothingBeforeFirst(images: seq<Image>)
    ensures OffsetOf(images, 0) == 0
  {
    assert images[..0] == [];
  }

  lemma FileReadsAs(f: SourceFile)
    requires Storable(f) && SafePath(f.path)
    ensures ReadsAs(ImageOf(f), f.path)
  {
    HeaderRoundTrip(f);
    PowerOf8Bound(11);
  }

  lemma TwoZeroBlocks(body: bytes, padding: bytes)
    ensures body + Zeros(2 * BLOCK_SIZE) + padding == body + Zeros(BLOCK_SIZE) + (Zeros(BLOCK_SIZE) + padding)
  {
    assert Zeros(2 * BLOCK_SIZE) == Zeros(BLOCK_SIZE) + Zeros(BLOCK_SIZE);
  }

  lemma WholeRecords(n: nat)
    ensures (n + |RecordPadding(n)|) % RECORD_SIZE == 0
  {
  }

  /** The same for the complete archive, whose length is a whole number of records. */
  lemma ArchiveRoundTrip(files: seq<SourceFile>)
    requires AllStorable(files) && AllSafe(files)
    requires |Archive(files)| < SIZE_MODULUS
    ensures ParseTar(Archive(files)).TarOk?
    ensures DenotesAll(Archive(files), ParseTar(Archive(files)).entries, files)
    ensures |Archive(files)| % 10240 == 0
  {
    hide TarFrom, DenotesAll, ImagesOf, Body, Storable, RecordPadding, SafePath;
    var body := Body(ImagesOf(files));
    var padding := RecordPadding(|body| + 2 * BLOCK_SIZE);
    TwoZeroBlocks(body, padding);
    WholeRecords(|body| + 2 * BLOCK_SIZE);
    TarRoundTrip(files, Zeros(BLOCK_SIZE) + padding);
  }
}
