/** The package framing: the packager's builder and parser, the device's parser, and the signed bytes. */
module Blobs {
  import opened Bytes

  const MAGIC: bytes := Ascii("FOTS")
  const FORMAT_VERSION: byte := 1
  const PLATFORM_TAG_SIZE: nat := 16
  const FW_VERSION_SIZE: nat := 12
  const IV_SIZE: nat := 16
  const SIGNATURE_SIZE: nat := 256
  const HEADER_SIZE: nat := 51

  /** The header's fields; texts are raw bytes on the device, stripped of padding in the packager. */
  datatype Header = Header(platformTag: bytes, fwVersion: bytes, wrappedKeyLength: nat, iv: bytes)

  datatype Sections = Sections(header: Header, wrappedKey: bytes, signature: bytes, payload: bytes, signedData: bytes)

  // ---- The packager ----

  predicate IsAscii(s: bytes) {
    forall i | 0 <= i < |s| :: s[i] < 128
  }

  /** `ljust` with NULs; None where the text is too long or not ASCII. */
  function PackAsciiField(value: bytes, size: nat): Option<bytes> {
    if IsAscii(value) && |value| <= size then Some(value + Zeros(size - |value|)) else None
  }

  function BuildHeader(platform: bytes, fwVersion: bytes, iv: bytes, wrappedKeyLength: int): Option<bytes> {
    var tag := PackAsciiField(platform, PLATFORM_TAG_SIZE);
    var version := PackAsciiField(fwVersion, FW_VERSION_SIZE);
    if |iv| != IV_SIZE || !(0 <= wrappedKeyLength <= 0xFFFF) || tag.None? || version.None? then None
    else Some(MAGIC + [FORMAT_VERSION] + tag.value + version.value
              + [wrappedKeyLength / 256, wrappedKeyLength % 256] + iv)
  }

  function Assemble(header: bytes, wrappedKey: bytes, signature: bytes, payload: bytes): Option<bytes> {
    if |header| != HEADER_SIZE || |signature| != SIGNATURE_SIZE then None
    else Some(header + wrappedKey + signature + payload)
  }

  /** Where the k-th of consecutive fields starts. */
  function Offset(sizes: seq<nat>, k: nat): nat
    requires k <= |sizes|
  {
    if k == 0 then 0 else Offset(sizes, k - 1) + sizes[k - 1]
  }

  lemma {:induction false} OffsetGrows(sizes: seq<nat>, j: nat, k: nat)
    requires j <= k <= |sizes|
    ensures Offset(sizes, j) <= Offset(sizes, k)
  {
    if j < k {
      OffsetGrows(sizes, j, k - 1);
    }
  }

  /** The k-th of the fields that `struct.unpack` finds back to back. */
  function Unpack(data: bytes, sizes: seq<nat>, k: nat): bytes
    requires |data| == Offset(sizes, |sizes|) && k < |sizes|
  {
    OffsetGrows(sizes, k + 1, |sizes|);
    data[Offset(sizes, k)..Offset(sizes, k + 1)]
  }

  const HEADER_FIELDS: seq<nat> := [4, 1, PLATFORM_TAG_SIZE, FW_VERSION_SIZE, 2, IV_SIZE]

  lemma HeaderOffsets()
    ensures Offset(HEADER_FIELDS, 1) == 4 && Offset(HEADER_FIELDS, 2) == 5 && Offset(HEADER_FIELDS, 3) == 21
    ensures Offset(HEADER_FIELDS, 4) == 33 && Offset(HEADER_FIELDS, 5) == 35 && Offset(HEADER_FIELDS, 6) == HEADER_SIZE
  {
    assert Offset(HEADER_FIELDS, 3) == Offset(HEADER_FIELDS, 2) + 16;
    assert Offset(HEADER_FIELDS, 5) == Offset(HEADER_FIELDS, 4) + 2;
  }

  /** A big-endian 16-bit number. */
  function BigEndian16(high: byte, low: byte): (n: nat)
    ensures n < 0x1_0000
  {
    high as int * 256 + low as int
  }

  function RStrip(s: bytes): bytes {
    if s != [] && s[|s| - 1] == NUL then RStrip(s[..|s| - 1]) else s
  }

  /** `parse_header`: None for every way it raises. */
  function PackagerParseHeader(data: bytes): Option<Header> {
    if |data| < HEADER_SIZE then None
    else
      HeaderOffsets();
      var raw := data[..HEADER_SIZE];
      var tag, version := RStrip(Unpack(raw, HEADER_FIELDS, 2)), RStrip(Unpack(raw, HEADER_FIELDS, 3));
      var length := Unpack(raw, HEADER_FIELDS, 4);
      if Unpack(raw, HEADER_FIELDS, 0) != MAGIC || Unpack(raw, HEADER_FIELDS, 1) != [FORMAT_VERSION] then None
      else if !IsAscii(tag) || !IsAscii(version) then None
      else Some(Header(tag, version, BigEndian16(length[0], length[1]), Unpack(raw, HEADER_FIELDS, 5)))
  }

  /** `parse_blob`. */
  function PackagerParse(data: bytes): Option<Sections> {
    var header := PackagerParseHeader(data);
    if header.None? then None
    else
      var wrappedKeyEnd := HEADER_SIZE + header.value.wrappedKeyLength;
      var signatureEnd := wrappedKeyEnd + SIGNATURE_SIZE;
      if |data| < signatureEnd then None
      else
        var wrappedKey, payload := data[HEADER_SIZE..wrappedKeyEnd], data[signatureEnd..];
        Some(Sections(header.value, wrappedKey, data[wrappedKeyEnd..signatureEnd], payload,
                      data[..HEADER_SIZE] + wrappedKey + payload))
  }

  // ---- The device ----

  datatype HeaderCode = HeaderOk | HeaderTruncated | HeaderBadMagic | HeaderBadVersion

  function HeaderCheck(data: bytes): HeaderCode {
    if |data| < HEADER_SIZE then HeaderTruncated
    else if data[..4] != MAGIC then HeaderBadMagic
    else if data[4] != FORMAT_VERSION then HeaderBadVersion
    else HeaderOk
  }

  /** The fields at their absolute offsets. */
  function HeaderFields(data: bytes): (h: Header)
    requires |data| >= HEADER_SIZE
    ensures h.wrappedKeyLength < 0x1_0000
  {
    Header(data[5..21], data[21..33], BigEndian16(data[33], data[34]), data[35..51])
  }

  /** The caller's header record. */
  class HeaderRecord {
    var platformTag: bytes
    var fwVersion: bytes
    var wrappedKeyLength: nat
    var iv: bytes

    constructor ()
      ensures Value() == Header([], [], 0, [])
    {
      platformTag, fwVersion, wrappedKeyLength, iv := [], [], 0, [];
    }

    function Value(): Header
      reads this
    {
      Header(platformTag, fwVersion, wrappedKeyLength, iv)
    }

    /** `fota_header_parse`: the record is written only once every check has passed. */
    method Parse(data: bytes) returns (code: HeaderCode)
      modifies this
      ensures code == HeaderCheck(data)
      ensures Value() == if code == HeaderOk then HeaderFields(data) else old(Value())
    {
      if |data| < HEADER_SIZE {
        return HeaderTruncated;
      }
      if data[..4] != MAGIC {
        return HeaderBadMagic;
      }
      if data[4] != FORMAT_VERSION {
        return HeaderBadVersion;
      }
      platformTag := data[5..21];
      fwVersion := data[21..33];
      wrappedKeyLength := BigEndian16(data[33], data[34]);
      iv := data[35..51];
      return HeaderOk;
    }
  }

  /** The device's split of a package: the header check, then the length check of main. */
  function DeviceSplit(data: bytes): Option<Sections> {
    if HeaderCheck(data) != HeaderOk then None
    else
      var header := HeaderFields(data);
      var wrappedKeyEnd := HEADER_SIZE + header.wrappedKeyLength;
      var signatureEnd := wrappedKeyEnd + SIGNATURE_SIZE;
      if |data| < signatureEnd then None
      else
        var wrappedKey, payload := data[HEADER_SIZE..wrappedKeyEnd], data[signatureEnd..];
        Some(Sections(header, wrappedKey, data[wrappedKeyEnd..signatureEnd], payload,
                      data[..HEADER_SIZE] + wrappedKey + payload))
  }

  /** The three copies by which main rebuilds the signed bytes. */
  method RebuildSignedData(header: bytes, wrappedKey: bytes, ciphertext: bytes) returns (signed: array<byte>)
    ensures fresh(signed) && signed[..] == header + wrappedKey + ciphertext
  {
    signed := new byte[|header| + |wrappedKey| + |ciphertext|];
    Store(signed, 0, header);
    assert signed[..|header|] == header;
    Store(signed, |header|, wrappedKey);
    Store(signed, |header| + |wrappedKey|, ciphertext);
    assert signed[..] == signed[..|header| + |wrappedKey| + |ciphertext|];
  }

  // ---- Laws ----

  lemma {:induction false} RStripKeepsAscii(s: bytes)
    ensures IsAscii(RStrip(s)) <==> IsAscii(s)
    ensures RStrip(s) <= s
  {
    if s != [] && s[|s| - 1] == NUL {
      RStripKeepsAscii(s[..|s| - 1]);
      assert forall i | 0 <= i < |s| :: i < |s| - 1 ==> s[i] == s[..|s| - 1][i];
    }
  }

  lemma {:induction false} RStripPadding(s: bytes, n: nat)
    ensures RStrip(s + Zeros(n)) == RStrip(s)
  {
    if n == 0 {
      assert s + Zeros(0) == s;
    } else {
      RStripPadding(s, n - 1);
      assert (s + Zeros(n))[..|s| + n - 1] == s + Zeros(n - 1);
    }
  }

  lemma RStripIdentity(s: bytes)
    ensures RStrip(s) == s <==> (s == [] || s[|s| - 1] != NUL)
  {
    if s != [] {
      RStripKeepsAscii(s[..|s| - 1]);
    }
  }

  /** The two header parsers read the same bytes, wherever the packager's accepts. */
  lemma HeadersAgree(data: bytes)
    ensures var packager := PackagerParseHeader(data);
            && (packager.Some? <==>
                 && HeaderCheck(data) == HeaderOk
                 && IsAscii(HeaderFields(data).platformTag) && IsAscii(HeaderFields(data).fwVersion))
            && (packager.Some? ==>
                 var device := HeaderFields(data);
                 packager.value == Header(RStrip(device.platformTag), RStrip(device.fwVersion),
                     device.wrappedKeyLength, device.iv))
  {
    if |data| >= HEADER_SIZE {
      var d := data[..HEADER_SIZE];
      HeaderOffsets();
      RStripKeepsAscii(d[5..21]);
      RStripKeepsAscii(d[21..33]);
      assert d[..4] == data[..4] && d[4..5] == [data[4]] && d[5..21] == data[5..21] && d[21..33] == data[21..33];
      assert d[33..35] == [data[33], data[34]] && d[35..51] == data[35..51];
    }
  }

  /** The device and the packager agree on which packages split, where the sections lie, and which bytes
      are signed; they differ only on headers whose texts are not ASCII, which the packager refuses. */
  lemma SplitsAgree(data: bytes)
    ensures var device, packager := DeviceSplit(data), PackagerParse(data);
            && (packager.Some? <==>
                 device.Some? && IsAscii(device.value.header.platformTag) && IsAscii(device.value.header.fwVersion))
            && (packager.Some? ==>
                 var h := device.value.header;
                 && packager.value.(header := h) == device.value
                 && packager.value.header
                    == Header(RStrip(h.platformTag), RStrip(h.fwVersion), h.wrappedKeyLength, h.iv))
  {
    hide PackagerParseHeader, RStrip, IsAscii;
    HeadersAgree(data);
  }

  lemma BuiltHeader(platform: bytes, fwVersion: bytes, iv: bytes, wrappedKeyLength: int, rest: bytes)
    requires BuildHeader(platform, fwVersion, iv, wrappedKeyLength).Some?
    ensures var h := BuildHeader(platform, fwVersion, iv, wrappedKeyLength).value;
            && |h| == HEADER_SIZE
            && HeaderCheck(h + rest) == HeaderOk
            && HeaderFields(h + rest) == Header(platform + Zeros(PLATFORM_TAG_SIZE - |platform|),
                                                fwVersion + Zeros(FW_VERSION_SIZE - |fwVersion|), wrappedKeyLength, iv)
  {
    var tag, version := platform + Zeros(PLATFORM_TAG_SIZE - |platform|),
        fwVersion + Zeros(FW_VERSION_SIZE - |fwVersion|);
    assert |MAGIC| == 4;
    var front := MAGIC + [FORMAT_VERSION];
    var h := front + tag + version + [wrappedKeyLength / 256, wrappedKeyLength % 256] + iv;
    assert h == BuildHeader(platform, fwVersion, iv, wrappedKeyLength).value;
    var data := h + rest;
    assert data[..4] == MAGIC && data[4] == FORMAT_VERSION;
    assert data[5..21] == tag && data[21..33] == version && data[35..51] == iv;
  }

  lemma FourPieces(h: bytes, k: bytes, s: bytes, p: bytes)
    ensures var data := h + k + s + p;
            && data[..|h|] == h && data[|h|..|h| + |k|] == k
            && data[|h| + |k|..|h| + |k| + |s|] == s && data[|h| + |k| + |s|..] == p
            && data == h + (k + s + p)
  {
  }

  /** Blob round trip, on the device: every section of an assembled package is found again, and the
      bytes checked are the bytes signed. */
  lemma DeviceReadsAssembled(platform: bytes, fwVersion: bytes, iv: bytes, wrappedKey: bytes, signature: bytes,
      payload: bytes)
    requires BuildHeader(platform, fwVersion, iv, |wrappedKey|).Some? && |signature| == SIGNATURE_SIZE
    ensures var header := BuildHeader(platform, fwVersion, iv, |wrappedKey|).value;
            var blob := Assemble(header, wrappedKey, signature, payload);
            && blob.Some?
            && DeviceSplit(blob.value) == Some(Sections(
                 Header(platform + Zeros(PLATFORM_TAG_SIZE - |platform|),
                     fwVersion + Zeros(FW_VERSION_SIZE - |fwVersion|), |wrappedKey|, iv),
                 wrappedKey, signature, payload, header + wrappedKey + payload))
  {
    BuiltHeader(platform, fwVersion, iv, |wrappedKey|, wrappedKey + signature + payload);
    hide BuildHeader, HeaderCheck, HeaderFields;
    FourPieces(BuildHeader(platform, fwVersion, iv, |wrappedKey|).value, wrappedKey, signature, payload);
  }

  /** A padded header text is ASCII and is read back without its trailing NULs. */
  lemma PaddedText(s: bytes, n: nat)
    requires IsAscii(s)
    ensures IsAscii(s + Zeros(n)) && RStrip(s + Zeros(n)) == RStrip(s)
  {
    RStripPadding(s, n);
  }

  lemma BuiltTexts(platform: bytes, fwVersion: bytes, iv: bytes, wrappedKeyLength: int)
    requires BuildHeader(platform, fwVersion, iv, wrappedKeyLength).Some?
    ensures |platform| <= PLATFORM_TAG_SIZE && IsAscii(platform)
    ensures |fwVersion| <= FW_VERSION_SIZE && IsAscii(fwVersion)
  {
  }

  /** Blob round trip, in the packager: the texts come back as they went in exactly when they do not end in NUL. */
  lemma PackagerReadsAssembled(platform: bytes, fwVersion: bytes, iv: bytes, wrappedKey: bytes, signature: bytes,
      payload: bytes)
    requires BuildHeader(platform, fwVersion, iv, |wrappedKey|).Some? && |signature| == SIGNATURE_SIZE
    ensures var header := BuildHeader(platform, fwVersion, iv, |wrappedKey|).value;
            var blob := Assemble(header, wrappedKey, signature, payload);
            && blob.Some?
            && PackagerParse(blob.value) == Some(Sections(
                 Header(RStrip(platform), RStrip(fwVersion), |wrappedKey|, iv), wrappedKey, signature, payload,
                     header + wrappedKey + payload))
    ensures RStrip(platform) == platform <==> (platform == [] || platform[|platform| - 1] != NUL)
  {
    hide BuildHeader, PackagerParse, DeviceSplit, RStrip, IsAscii;
    BuiltTexts(platform, fwVersion, iv, |wrappedKey|);
    DeviceReadsAssembled(platform, fwVersion, iv, wrappedKey, signature, payload);
    PaddedText(platform, PLATFORM_TAG_SIZE - |platform|);
    PaddedText(fwVersion, FW_VERSION_SIZE - |fwVersion|);
    RStripIdentity(platform);
    SplitsAgree(Assemble(BuildHeader(platform, fwVersion, iv, |wrappedKey|).value, wrappedKey, signature,
        payload).value);
  }

  /** The signed bytes are uniquely decodable: they fix header, wrapped key and ciphertext. */
  lemma SignedDataIsUnique(a: bytes, b: bytes)
    requires DeviceSplit(a).Some? && DeviceSplit(b).Some?
    requires DeviceSplit(a).value.signedData == DeviceSplit(b).value.signedData
    ensures DeviceSplit(a).value.(signature := []) == DeviceSplit(b).value.(signature := [])
    ensures a[..HEADER_SIZE] == b[..HEADER_SIZE]
    ensures a == b <==> DeviceSplit(a).value.signature == DeviceSplit(b).value.signature
  {
    var x, y := DeviceSplit(a).value, DeviceSplit(b).value;
    SignedPieces(a);
    SignedPieces(b);
    SameHeaderFields(a, b);
  }

  lemma SameHeaderFields(a: bytes, b: bytes)
    requires |a| >= HEADER_SIZE && |b| >= HEADER_SIZE && a[..HEADER_SIZE] == b[..HEADER_SIZE]
    ensures HeaderFields(a) == HeaderFields(b)
  {
    var p, q := a[..HEADER_SIZE], b[..HEADER_SIZE];
    assert a[5..21] == p[5..21] && a[21..33] == p[21..33] && a[35..51] == p[35..51] && a[33] == p[33] && a[34] == p[34];
    assert b[5..21] == q[5..21] && b[21..33] == q[21..33] && b[35..51] == q[35..51] && b[33] == q[33] && b[34] == q[34];
  }

  /** Where the sections lie inside the signed bytes and the package. */
  lemma SignedPieces(data: bytes)
    requires DeviceSplit(data).Some?
    ensures var x := DeviceSplit(data).value;
            var n := HEADER_SIZE + x.header.wrappedKeyLength;
            && x.header == HeaderFields(data) && |x.signedData| >= n
            && x.signedData[..HEADER_SIZE] == data[..HEADER_SIZE]
            && x.signedData[HEADER_SIZE..n] == x.wrappedKey
            && x.signedData[n..] == x.payload
            && data == data[..HEADER_SIZE] + x.wrappedKey + x.signature + x.payload
  {
  }

  // ---- The same rules, byte by byte ----

  /** The four verdicts on a header. */
  lemma HeaderIsExact(data: bytes)
    ensures HeaderCheck(data) == HeaderTruncated <==> |data| < 51
    ensures HeaderCheck(data) == HeaderBadMagic <==> |data| >= 51 && data[..4] != [70, 79, 84, 83]
    ensures HeaderCheck(data) == HeaderBadVersion <==> |data| >= 51 && data[..4] == [70, 79, 84, 83] && data[4] != 1
    ensures HeaderCheck(data) == HeaderOk <==> |data| >= 51 && data[..4] == [70, 79, 84, 83] && data[4] == 1
  {
    assert MAGIC == [70, 79, 84, 83];
  }

  /** The big-endian length at bytes 33 and 34. */
  function KeyLengthAt(data: bytes): nat
    requires |data| >= 51
  {
    256 * (data[33] as int) + data[34] as int
  }

  /** What the device finds in a package, and when it finds nothing. */
  lemma SplitIsExact(data: bytes)
    ensures DeviceSplit(data).Some? <==>
              |data| >= 51 && data[..4] == [70, 79, 84, 83] && data[4] == 1 && |data| >= 307 + KeyLengthAt(data)
    ensures DeviceSplit(data).Some? ==>
              var x, n := DeviceSplit(data).value, KeyLengthAt(data);
              && x.header == Header(data[5..21], data[21..33], n, data[35..51])
              && x.wrappedKey == data[51..51 + n] && x.signature == data[51 + n..307 + n]
               && x.payload == data[307 + n..]
              && x.signedData == data[..51 + n] + data[307 + n..]
  {
    HeaderIsExact(data);
    hide HeaderCheck;
    if DeviceSplit(data).Some? {
      var n := KeyLengthAt(data);
      assert data[..51] + data[51..51 + n] == data[..51 + n];
    }
  }

  /** When the packager refuses to build a header or to assemble a package. */
  lemma PackagerRefuses(platform: bytes, fwVersion: bytes, iv: bytes, wrappedKeyLength: int,
      header: bytes, wrappedKey: bytes, signature: bytes, payload: bytes)
    ensures BuildHeader(platform, fwVersion, iv, wrappedKeyLength).Some? <==>
              && |platform| <= 16 && (forall i | 0 <= i < |platform| :: platform[i] < 128)
              && |fwVersion| <= 12 && (forall i | 0 <= i < |fwVersion| :: fwVersion[i] < 128)
              && |iv| == 16 && 0 <= wrappedKeyLength <= 65535
    ensures Assemble(header, wrappedKey, signature, payload)
         == if |header| == 51 && |signature| == 256 then Some(header + wrappedKey + signature + payload) else None
  {
    hide Ascii;
  }
}
