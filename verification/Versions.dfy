/** Version texts: the dotted-decimal scanner, the printer, the version file and the downgrade rule. */
module Versions {
  import opened Bytes

  const PARTS: nat := 4
  const PART_LIMIT: nat := UINT_MODULUS
  const READ_BUFFER: nat := 64
  const NEWLINE: byte := 10

  /** Four unsigned 32-bit parts, most significant first. */
  type Version = v: seq<nat> | |v| == PARTS && forall i | 0 <= i < PARTS :: v[i] < PART_LIMIT
    witness [0, 0, 0, 0]

  const NO_VERSION: Version := [0, 0, 0, 0]

  // ---- What a version text is ----

  predicate IsDigit(c: byte) {
    48 <= c <= 57
  }

  ghost predicate AllDigits(s: bytes) {
    forall i | 0 <= i < |s| :: IsDigit(s[i])
  }

  ghost function DecimalValue(s: bytes): nat
    requires AllDigits(s)
  {
    if s == [] then 0 else DecimalValue(s[..|s| - 1]) * 10 + s[|s| - 1] as int - 48
  }

  ghost predicate IsPart(s: bytes) {
    s != [] && AllDigits(s) && DecimalValue(s) < PART_LIMIT
  }

  /** Exactly four non-empty digit strings joined by dots, each of value at most 2^32 - 1. */
  ghost predicate IsVersionText(content: bytes) {
    |Split(content, DOT)| == PARTS && forall p <- Split(content, DOT) :: IsPart(p)
  }

  ghost function VersionOf(content: bytes): (v: Version)
    requires IsVersionText(content)
  {
    var parts := Split(content, DOT);
    assert forall k | 0 <= k < PARTS :: parts[k] in parts;
    seq(PARTS, k requires 0 <= k < PARTS => DecimalValue(parts[k]))
  }

  /** The version in the bytes before the first NUL, if they are a version text. */
  ghost function ParseVersion(data: bytes): Option<Version> {
    if IsVersionText(CString(data)) then Some(VersionOf(CString(data))) else None
  }

  // ---- The scanner ----

  lemma DecimalPush(s: bytes, start: nat, i: nat)
    requires start <= i < |s| && AllDigits(s[start..i + 1])
    ensures AllDigits(s[start..i])
    ensures DecimalValue(s[start..i + 1]) == DecimalValue(s[start..i]) * 10 + s[i] as int - 48
  {
    assert s[start..i + 1][..i - start] == s[start..i];
    assert forall k | 0 <= k < i - start :: s[start..i][k] == s[start..i + 1][k];
  }

  lemma {:induction false} DecimalGrows(s: bytes, start: nat, i: nat, end: nat)
    requires start <= i <= end <= |s| && AllDigits(s[start..end])
    ensures AllDigits(s[start..i]) && DecimalValue(s[start..i]) <= DecimalValue(s[start..end])
  {
    if i < end {
      DecimalPush(s, start, end - 1);
      DecimalGrows(s, start, i, end - 1);
    }
  }

  /** The inner loop: it stops at the first value past the limit, which no later digit can undo, so the
      64-bit accumulator never wraps. */
  method ParseComponent(data: bytes, start: nat, end: nat) returns (value: Option<nat>)
    requires start <= end <= |data| && AllDigits(data[start..end])
    ensures value == if DecimalValue(data[start..end]) < PART_LIMIT then Some(DecimalValue(data[start..end])) else None
  {
    var v: nat := 0;
    var j := start;
    assert data[start..start] == [];
    DecimalGrows(data, start, start, end);
    while j < end
      invariant start <= j <= end
      invariant AllDigits(data[start..j]) && v == DecimalValue(data[start..j]) < PART_LIMIT
    {
      DecimalGrows(data, start, j + 1, end);
      DecimalPush(data, start, j);
      assert IsDigit(data[start..j + 1][j - start]);
      assert v * 10 + 9 < SIZE_MODULUS;
      v := v * 10 + (data[j] as int - 48);
      if v > 0xFFFF_FFFF {
        return None;
      }
      j := j + 1;
    }
    return Some(v);
  }

  lemma StrayByteRejects(content: bytes, i: nat)
    requires i < |content| && content[i] != DOT && !IsDigit(content[i])
    ensures !IsVersionText(content)
  {
    var k := ByteInComponent(content, |content|, i, DOT);
    var p := Split(content, DOT)[k];
    var m :| 0 <= m < |p| && p[m] == content[i];
    assert p in Split(content, DOT) && !IsDigit(p[m]);
  }

  lemma BadComponentRejects(content: bytes, component: bytes)
    requires component in Split(content, DOT) && !IsPart(component)
    ensures !IsVersionText(content)
  {
  }

  lemma TooManyRejects(content: bytes)
    requires |Split(content, DOT)| > PARTS
    ensures !IsVersionText(content)
  {
  }

  /** The values of the components closed so far. */
  ghost predicate Closed(parts: seq<nat>, done: seq<bytes>) {
    && |parts| == |done|
    && forall k | 0 <= k < |done| :: IsPart(done[k]) && parts[k] == DecimalValue(done[k])
  }

  lemma ClosedIsVersion(content: bytes, parts: seq<nat>)
    requires Closed(parts, Split(content, DOT))
    ensures IsVersionText(content) <==> |parts| == PARTS
    ensures |parts| == PARTS ==> VersionOf(content) == parts
  {
  }

  lemma ClosedPush(parts: seq<nat>, done: seq<bytes>, value: nat, component: bytes)
    requires Closed(parts, done) && IsPart(component) && value == DecimalValue(component)
    ensures Closed(parts + [value], done + [component])
  {
    hide DecimalValue, IsPart;
  }

  lemma OneMoreDigit(content: bytes, start: nat, i: nat)
    requires start <= i < |content| && AllDigits(content[start..i]) && IsDigit(content[i])
    ensures AllDigits(content[start..i + 1])
  {
    assert content[start..i + 1] == content[start..i] + [content[i]];
  }

  lemma NoDigits(content: bytes, i: nat)
    ensures i <= |content| ==> AllDigits(content[i..i])
  {
  }

  /** `fota_version_parse`: one pass, closing a component at every dot and at the end. */
  method VersionParse(data: bytes) returns (r: Option<Version>)
    ensures r == ParseVersion(data)
  {
    var contentLength := BoundedStrlen(data);
    var content := data[..contentLength];
    if contentLength == 0 {
      assert |Split([], DOT)| == 1;
      return None;
    }
    var parts: seq<nat> := [];
    ghost var done: seq<bytes> := [];
    var start, i := 0, 0;
    ScanStarts(content, DOT);
    while i <= contentLength
      invariant i <= contentLength ==> Scanned(content, DOT, done, start, i) && AllDigits(content[start..i])
      invariant i == contentLength + 1 ==> Split(content, DOT) == done
      invariant i <= contentLength + 1
      invariant Closed(parts, done) && |parts| <= PARTS
    {
      assert start <= i && |parts| == |done|;
      hide IsVersionText, DecimalValue, Scanned, Split, Closed, AllDigits, ParseVersion, VersionOf;
      if i < contentLength && content[i] != DOT {
        if content[i] < 48 || content[i] > 57 {
          StrayByteRejects(content, i);
          return None;
        }
        OneMoreDigit(content, start, i);
        ScanStep(content, DOT, done, start, i);
        i := i + 1;
        continue;
      }
      ghost var component := content[start..i];
      ScanCloses(content, DOT, done, start, i);
      if i - start == 0 {
        BadComponentRejects(content, component);
        return None;
      }
      if |parts| >= PARTS {
        TooManyRejects(content);
        return None;
      }
      var value := ParseComponent(content, start, i);
      if value.None? {
        BadComponentRejects(content, component);
        return None;
      }
      if i < contentLength {
        ScanStep(content, DOT, done, start, i);
      }
      ClosedPush(parts, done, value.value, component);
      parts, done := parts + [value.value], done + [component];
      start := i + 1;
      i := i + 1;
      NoDigits(content, i);
    }
    hide IsVersionText, VersionOf;
    ClosedIsVersion(content, parts);
    if |parts| != PARTS {
      return None;
    }
    return Some(parts);
  }

  // ---- Order ----

  /** The parts as the digits of one 128-bit number. */
  function Number(v: Version): nat {
    ((v[0] * PART_LIMIT + v[1]) * PART_LIMIT + v[2]) * PART_LIMIT + v[3]
  }

  /** The number of the first `n` parts. */
  ghost function Leading(v: Version, n: nat): nat
    requires n <= PARTS
  {
    if n == 0 then 0 else Leading(v, n - 1) * PART_LIMIT + v[n - 1]
  }

  lemma LeadingIsNumber(v: Version)
    ensures Leading(v, PARTS) == Number(v)
  {
    assert Leading(v, 4) == Leading(v, 3) * PART_LIMIT + v[3];
    assert Leading(v, 3) == Leading(v, 2) * PART_LIMIT + v[2];
    assert Leading(v, 2) == Leading(v, 1) * PART_LIMIT + v[1];
  }

  /** A difference in the leading parts decides. */
  lemma {:induction false} LeadingDecides(a: Version, b: Version, n: nat, m: nat)
    requires n <= m <= PARTS && Leading(a, n) < Leading(b, n)
    ensures Leading(a, m) < Leading(b, m)
  {
    if n < m {
      LeadingDecides(a, b, n, m - 1);
      assert Leading(a, m - 1) + 1 <= Leading(b, m - 1);
    }
  }

  /** `fota_version_compare`: part by part, which is the order of the 128-bit numbers. */
  method VersionCompare(a: Version, b: Version) returns (cmp: int)
    ensures cmp == if Number(a) < Number(b) then -1 else if Number(a) > Number(b) then 1 else 0
  {
    LeadingIsNumber(a);
    LeadingIsNumber(b);
    var i := 0;
    while i < PARTS
      invariant i <= PARTS
      invariant Leading(a, i) == Leading(b, i)
    {
      if a[i] < b[i] {
        LeadingDecides(a, b, i + 1, PARTS);
        return -1;
      }
      if a[i] > b[i] {
        LeadingDecides(b, a, i + 1, PARTS);
        return 1;
      }
      i := i + 1;
    }
    return 0;
  }

  lemma DigitsOfNumber(high: nat, low: nat, high': nat, low': nat)
    requires low < PART_LIMIT && low' < PART_LIMIT
    requires high * PART_LIMIT + low == high' * PART_LIMIT + low'
    ensures high == high' && low == low'
  {
  }

  /** Different versions have different numbers. */
  lemma NumberIsInjective(a: Version, b: Version)
    requires Number(a) == Number(b)
    ensures a == b
  {
    DigitsOfNumber((a[0] * PART_LIMIT + a[1]) * PART_LIMIT + a[2], a[3],
        (b[0] * PART_LIMIT + b[1]) * PART_LIMIT + b[2], b[3]);
    DigitsOfNumber(a[0] * PART_LIMIT + a[1], a[2], b[0] * PART_LIMIT + b[1], b[2]);
    DigitsOfNumber(a[0], a[1], b[0], b[1]);
  }

  // ---- The version file ----

  predicate IsTrimmed(c: byte) {
    c in {10, 13, 32, 9}
  }

  function TrimEnd(s: bytes): (t: bytes)
    ensures t <= s
  {
    if s != [] && IsTrimmed(s[|s| - 1]) then TrimEnd(s[..|s| - 1]) else s
  }

  /** The installed version by the file's contents: 0.0.0.0 where there is nothing, None where it is malformed. */
  ghost function InstalledVersion(file: Option<bytes>): Option<Version> {
    if file.None? then Some(NO_VERSION)
    else if |file.value| > READ_BUFFER then None
    else if TrimEnd(file.value) == [] then Some(NO_VERSION)
    else ParseVersion(TrimEnd(file.value))
  }

  method VersionReadInstalled(file: Option<bytes>) returns (r: Option<Version>)
    ensures r == InstalledVersion(file)
  {
    if file.None? {
      return Some(NO_VERSION);
    }
    var buf := if |file.value| < READ_BUFFER then file.value else file.value[..READ_BUFFER];
    var n := |buf|;
    if n == READ_BUFFER && |file.value| > READ_BUFFER {
      return None;
    }
    assert buf == file.value;
    assert buf[..n] == buf;
    while n > 0 && (buf[n - 1] == 10 || buf[n - 1] == 13 || buf[n - 1] == 32 || buf[n - 1] == 9)
      invariant n <= |buf|
      invariant TrimEnd(buf[..n]) == TrimEnd(buf)
    {
      assert buf[..n][..n - 1] == buf[..n - 1];
      n := n - 1;
    }
    if n == 0 {
      return Some(NO_VERSION);
    }
    r := VersionParse(buf[..n]);
  }

  // ---- The printer ----

  /** `%u`. */
  function DecimalText(n: nat): (text: bytes)
    ensures text != []
  {
    var digit := n % 10;
    if n < 10 then [48 + digit] else DecimalText(n / 10) + [48 + digit]
  }

  function PartTexts(v: Version): (texts: seq<bytes>)
    ensures |texts| == PARTS
  {
    [DecimalText(v[0]), DecimalText(v[1]), DecimalText(v[2]), DecimalText(v[3])]
  }

  /** What `fota_version_write_installed` prints. */
  function VersionText(v: Version): bytes {
    Join(PartTexts(v), DOT) + [NEWLINE]
  }

  lemma {:induction false} DecimalTextValue(n: nat)
    ensures AllDigits(DecimalText(n)) && DecimalValue(DecimalText(n)) == n
  {
    var text := DecimalText(n);
    if n >= 10 {
      DecimalTextValue(n / 10);
      assert text[..|text| - 1] == DecimalText(n / 10);
    } else {
      assert text[..0] == [];
    }
  }

  ghost function PowerOf10(k: nat): nat {
    if k == 0 then 1 else 10 * PowerOf10(k - 1)
  }

  lemma {:induction false} DecimalTextLength(n: nat, k: nat)
    requires k >= 1 && n < PowerOf10(k)
    ensures |DecimalText(n)| <= k
  {
    if n >= 10 {
      DecimalTextLength(n / 10, k - 1);
    }
  }

  lemma JoinOfFour(a: bytes, b: bytes, c: bytes, d: bytes)
    ensures Join([a, b, c, d], DOT) == a + [DOT] + b + [DOT] + c + [DOT] + d
  {
    assert [a, b, c, d][..3] == [a, b, c] && [a, b, c][..2] == [a, b] && [a, b][..1] == [a];
    assert Join([a, b], DOT) == a + [DOT] + b;
    assert Join([a, b, c], DOT) == a + [DOT] + b + [DOT] + c;
  }

  /** Ten digits are enough for every part, so the text fits the 64-byte buffers. */
  lemma VersionTextLength(v: Version)
    ensures |VersionText(v)| <= 44 < READ_BUFFER
  {
    assert PowerOf10(10) == 10000000000;
    forall k | 0 <= k < PARTS ensures |PartTexts(v)[k]| <= 10 {
      DecimalTextLength(v[k], 10);
    }
    var t := PartTexts(v);
    JoinOfFour(t[0], t[1], t[2], t[3]);
  }

  /** What the printed text is made of: digits and dots, ending in a digit. */
  lemma PrintedBytes(v: Version)
    ensures var body := Join(PartTexts(v), DOT);
            body != [] && IsDigit(body[|body| - 1]) && forall c <- body :: IsDigit(c) || c == DOT
  {
    var t := PartTexts(v);
    forall k | 0 <= k < PARTS ensures AllDigits(t[k]) {
      DecimalTextValue(v[k]);
    }
    JoinOfFour(t[0], t[1], t[2], t[3]);
    var body := Join(t, DOT);
    assert body[|body| - 1] == t[3][|t[3]| - 1];
  }

  lemma PrintedParts(v: Version)
    ensures IsVersionText(Join(PartTexts(v), DOT)) && VersionOf(Join(PartTexts(v), DOT)) == v
  {
    forall k | 0 <= k < PARTS ensures IsPart(PartTexts(v)[k]) && DecimalValue(PartTexts(v)[k]) == v[k] {
      DecimalTextValue(v[k]);
    }
    JoinedParts(PartTexts(v), v);
  }

  /** Four parts joined by dots are the text of their values. */
  lemma JoinedParts(parts: seq<bytes>, v: Version)
    requires |parts| == PARTS
    requires forall k | 0 <= k < PARTS :: IsPart(parts[k]) && DecimalValue(parts[k]) == v[k]
    ensures IsVersionText(Join(parts, DOT)) && VersionOf(Join(parts, DOT)) == v
  {
    forall p <- parts ensures DOT !in p {
      assert AllDigits(p);
    }
    SplitJoin(parts, DOT);
    assert Closed(v, Split(Join(parts, DOT), DOT));
    ClosedIsVersion(Join(parts, DOT), v);
  }

  /** The version file round trip: every version is read back as it was written. */
  lemma VersionFileRoundTrip(v: Version)
    ensures InstalledVersion(Some(VersionText(v))) == Some(v)
  {
    hide IsVersionText, VersionOf, PartTexts;
    var body := Join(PartTexts(v), DOT);
    VersionTextLength(v);
    PrintedBytes(v);
    PrintedParts(v);
    assert VersionText(v)[..|body|] == body;
    assert TrimEnd(VersionText(v)) == body;
    CStringWhole(body);
  }

  // ---- A version file cut short ----

  /** What reaches the file of a write that stops after `n` bytes. */
  function Cut(text: bytes, n: nat): bytes {
    if n < |text| then text[..n] else text
  }

  /** Where the last part starts in the printed text. */
  function LastPartAt(v: Version): nat {
    |DecimalText(v[0])| + |DecimalText(v[1])| + |DecimalText(v[2])| + 3
  }

  lemma {:induction false} PrefixValue(s: bytes, k: nat)
    requires AllDigits(s) && k <= |s|
    ensures DecimalValue(s[..k]) <= DecimalValue(s)
  {
    if k < |s| {
      PrefixValue(s[..|s| - 1], k);
      assert s[..|s| - 1][..k] == s[..k];
    } else {
      assert s[..k] == s;
    }
  }

  /** The digits of the last part among the first `n` bytes of the printed text. */
  ghost function LastDigits(v: Version, n: nat): (digits: bytes)
    requires LastPartAt(v) < n
    ensures IsPart(digits) && DecimalValue(digits) <= v[3] && digits <= DecimalText(v[3])
  {
    var text := DecimalText(v[3]);
    DecimalTextValue(v[3]);
    var shown := n - LastPartAt(v);
    var k := if shown < |text| then shown else |text|;
    PrefixValue(text, k);
    text[..k]
  }

  /** What the device takes for installed after a write of `v` that stopped after `n` bytes: nothing, a text
      it cannot read, or `v` with its last part cut. */
  ghost function TornVersion(v: Version, n: nat): (r: Option<Version>)
    ensures r.Some? ==> Number(r.value) <= Number(v)
  {
    if n == 0 then Some(NO_VERSION)
    else if n <= LastPartAt(v) then None
    else Some([v[0], v[1], v[2], DecimalValue(LastDigits(v, n))])
  }

  lemma PlainTextReads(text: bytes)
    requires text != [] && |text| <= READ_BUFFER && forall c <- text :: IsDigit(c) || c == DOT
    ensures InstalledVersion(Some(text)) == if IsVersionText(text) then Some(VersionOf(text)) else None
  {
    hide IsVersionText, VersionOf;
    assert text[|text| - 1] in text;
    assert NUL !in text;
    CStringWhole(text);
  }

  lemma ThreeParts(a: bytes, b: bytes, c: bytes)
    requires DOT !in a && DOT !in b && DOT !in c
    ensures Split(a + [DOT] + b + [DOT] + c + [DOT], DOT) == [a, b, c, []]
  {
    JoinOfFour(a, b, c, []);
    SplitJoin([a, b, c, []], DOT);
    hide Split, Join;
    assert a + [DOT] + b + [DOT] + c + [DOT] + [] == a + [DOT] + b + [DOT] + c + [DOT];
  }

  /** Up to the start of the last part there are too few parts, or an empty one. */
  lemma TooShort(front: bytes, s: bytes, n: nat)
    requires front != [] && front[|front| - 1] == DOT
    requires |Split(front, DOT)| == PARTS && Split(front, DOT)[3] == []
    requires n <= |front| <= |s| && s[..|front|] == front
    ensures !IsVersionText(s[..n])
  {
    assert s[..n] == front[..n];
    if n < |front| {
      SplitRangeAgrees(front, 0, front[..n], 0, n, DOT);
      SplitRangeGrows(front, n, |front| - 1, DOT);
      assert |Split(front, DOT)| == |SplitRange(front, 0, |front| - 1, DOT)| + 1;
    } else {
      assert front[..n] == front;
      BadComponentRejects(front, []);
    }
  }

  lemma CutVersionText(v: Version, n: nat)
    requires LastPartAt(v) < n < |VersionText(v)|
    ensures VersionText(v)[..n] == Join(PartTexts(v)[3 := LastDigits(v, n)], DOT)
  {
    var t := PartTexts(v);
    assert t[3 := LastDigits(v, n)] == [t[0], t[1], t[2], LastDigits(v, n)];
    JoinOfFour(t[0], t[1], t[2], t[3]);
    JoinOfFour(t[0], t[1], t[2], LastDigits(v, n));
    hide Join, DecimalText;
    var front := t[0] + [DOT] + t[1] + [DOT] + t[2] + [DOT];
    assert VersionText(v) == front + (t[3] + [NEWLINE]);
    assert VersionText(v)[..n] == front + LastDigits(v, n);
  }

  /** The whole text, and the text up to its last part. */
  lemma PrintedLayout(v: Version)
    ensures var t, lead := PartTexts(v), LastPartAt(v);
            && |VersionText(v)| == lead + |t[3]| + 1
            && VersionText(v)[..lead] == t[0] + [DOT] + t[1] + [DOT] + t[2] + [DOT]
  {
    var t := PartTexts(v);
    JoinOfFour(t[0], t[1], t[2], t[3]);
    hide Join, DecimalText;
    assert VersionText(v) == t[0] + [DOT] + t[1] + [DOT] + t[2] + [DOT] + (t[3] + [NEWLINE]);
  }

  lemma WholeVersion(v: Version, n: nat)
    requires n >= |VersionText(v)|
    ensures TornVersion(v, n) == Some(v)
  {
    PrintedLayout(v);
    DecimalTextValue(v[3]);
    assert DecimalText(v[3])[..|DecimalText(v[3])|] == DecimalText(v[3]);
    assert TornVersion(v, n).value == v;
  }

  lemma NoDotInParts(v: Version)
    ensures forall k | 0 <= k < PARTS :: DOT !in PartTexts(v)[k]
  {
    forall k | 0 <= k < PARTS ensures DOT !in PartTexts(v)[k] {
      DecimalTextValue(v[k]);
    }
  }

  /** A version write cut short reads as exactly that. */
  lemma TornTextReads(v: Version, n: nat)
    ensures InstalledVersion(Some(Cut(VersionText(v), n))) == TornVersion(v, n)
  {
    hide IsVersionText, VersionOf, InstalledVersion, DecimalText, Join, LastDigits;
    var t, text := PartTexts(v), VersionText(v);
    PrintedLayout(v);
    VersionTextLength(v);
    PrintedBytes(v);
    if n == 0 {
      EmptyReads();
    } else if n >= |text| {
      VersionFileRoundTrip(v);
      WholeVersion(v, n);
    } else {
      assert forall c <- text[..n] :: c in Join(t, DOT);
      PlainTextReads(text[..n]);
      if n <= LastPartAt(v) {
        NoDotInParts(v);
        ThreeParts(t[0], t[1], t[2]);
        TooShort(text[..LastPartAt(v)], text, n);
      } else {
        CutVersionText(v, n);
        TornParts(v, n);
      }
    }
  }

  lemma EmptyReads()
    ensures InstalledVersion(Some([])) == Some(NO_VERSION)
  {
  }

  lemma TornParts(v: Version, n: nat)
    requires LastPartAt(v) < n
    ensures var parts := PartTexts(v)[3 := LastDigits(v, n)];
            IsVersionText(Join(parts, DOT)) && Some(VersionOf(Join(parts, DOT))) == TornVersion(v, n)
  {
    var parts := PartTexts(v)[3 := LastDigits(v, n)];
    forall k | 0 <= k < PARTS ensures IsPart(parts[k]) && DecimalValue(parts[k]) == TornVersion(v, n).value[k] {
      DecimalTextValue(v[k]);
    }
    JoinedParts(parts, TornVersion(v, n).value);
  }

  // ---- The downgrade rule ----

  datatype DowngradeResult = Allow | UpToDate | Blocked

  /** The stored secret hash counts only if the file holds exactly one digest. */
  function StoredHash(file: Option<bytes>): Option<bytes> {
    if file.Some? && |file.value| == DIGEST_SIZE then file else None
  }

  /** A non-empty secret whose digest is the stored hash. */
  predicate Overrides(sha: bytes -> Digest, secret: Option<bytes>, hashFile: Option<bytes>) {
    && StoredHash(hashFile).Some? && secret.Some? && secret.value != []
    && sha(secret.value) == hashFile.value
  }

  /** `fota_downgrade_check`, over the 128-bit order. */
  function DowngradeDecision(sha: bytes -> Digest, candidate: Version, installed: Version, secret: Option<bytes>,
      hashFile: Option<bytes>): DowngradeResult {
    if Number(candidate) > Number(installed) then Allow
    else if Number(candidate) == Number(installed) then UpToDate
    else if Overrides(sha, secret, hashFile) then Allow
    else Blocked
  }

  method DowngradeCheck(sha: bytes -> Digest, candidate: Version, installed: Version, secret: Option<bytes>,
      storedHash: Option<bytes>)
    returns (r: DowngradeResult)
    requires storedHash.Some? ==> |storedHash.value| == DIGEST_SIZE
    ensures r == DowngradeDecision(sha, candidate, installed, secret, storedHash)
  {
    var cmp := VersionCompare(candidate, installed);
    if cmp > 0 {
      return Allow;
    }
    if cmp == 0 {
      return UpToDate;
    }
    if storedHash.None? || secret.None? || |secret.value| == 0 {
      return Blocked;
    }
    var computed := sha(secret.value);
    if computed == storedHash.value {
      return Allow;
    }
    return Blocked;
  }

  // ---- The same rules, spelled out ----

  /** A non-empty digit string of this value, which fits 32 bits. */
  ghost predicate Writes(s: bytes, n: nat) {
    && s != [] && (forall i | 0 <= i < |s| :: 48 <= s[i] <= 57)
    && n <= 4_294_967_295 && AllDigits(s) && DecimalValue(s) == n
  }

  ghost predicate Spells(text: bytes, v: Version) {
    exists a, b, c, d ::
      && text == a + [46] + b + [46] + c + [46] + d
      && Writes(a, v[0]) && Writes(b, v[1]) && Writes(c, v[2]) && Writes(d, v[3])
  }

  /** What the scanner accepts, without splitting: four digit strings with three dots between them. */
  lemma ParseIsExact(data: bytes, v: Version)
    ensures ParseVersion(data) == Some(v) <==> Spells(CString(data), v)
  {
    var text := CString(data);
    hide CString, DecimalValue;
    if ParseVersion(data) == Some(v) {
      var parts := Split(text, DOT);
      JoinSplit(text, |text|, DOT);
      assert text[..|text|] == text;
      assert parts == [parts[0], parts[1], parts[2], parts[3]];
      JoinOfFour(parts[0], parts[1], parts[2], parts[3]);
      forall k | 0 <= k < PARTS ensures Writes(parts[k], v[k]) {
        assert parts[k] in parts;
      }
    }
    hide Split, Join;
    if Spells(text, v) {
      var a, b, c, d :| text == a + [46] + b + [46] + c + [46] + d
        && Writes(a, v[0]) && Writes(b, v[1]) && Writes(c, v[2]) && Writes(d, v[3]);
      JoinOfFour(a, b, c, d);
      JoinedParts([a, b, c, d], v);
    }
  }

  /** What is written: the four parts in decimal with dots between them, and one line end. */
  lemma TextIsALine(v: Version)
    ensures var text := VersionText(v);
            text != [] && text[|text| - 1] == 10 && Spells(text[..|text| - 1], v)
  {
    hide IsVersionText, VersionOf, Spells, PartTexts;
    var body := Join(PartTexts(v), DOT);
    PrintedBytes(v);
    PrintedParts(v);
    assert VersionText(v)[..|body|] == body;
    CStringWhole(body);
    ParseIsExact(body, v);
  }

  /** Tabs, line ends and spaces. */
  predicate Blank(s: bytes) {
    forall i | 0 <= i < |s| :: s[i] in {9, 10, 13, 32}
  }

  lemma {:induction false} TrimmedTail(core: bytes, blanks: bytes)
    requires Blank(blanks)
    requires core == [] || core[|core| - 1] !in {9, 10, 13, 32}
    ensures TrimEnd(core + blanks) == core
    decreases |blanks|
  {
    if blanks == [] {
      assert core + blanks == core;
    } else {
      var last := |blanks| - 1;
      assert (core + blanks)[..|core + blanks| - 1] == core + blanks[..last];
      TrimmedTail(core, blanks[..last]);
    }
  }

  /** The version file, by its contents: text and any trailing tabs, line ends and spaces, up to 64 bytes. */
  lemma InstalledIsExact(core: bytes, blanks: bytes)
    requires Blank(blanks)
    requires core == [] || core[|core| - 1] !in {9, 10, 13, 32}
    ensures InstalledVersion(None) == Some([0, 0, 0, 0])
    ensures |core + blanks| > 64 ==> InstalledVersion(Some(core + blanks)) == None
    ensures |core + blanks| <= 64 && core == [] ==> InstalledVersion(Some(core + blanks)) == Some([0, 0, 0, 0])
    ensures |core + blanks| <= 64 && core != [] ==> InstalledVersion(Some(core + blanks)) == ParseVersion(core)
  {
    hide ParseVersion, TrimEnd;
    TrimmedTail(core, blanks);
  }

  /** Blank bytes at the end of a version file never matter, within its 64 bytes. */
  lemma BlanksAreIgnored(file: bytes, blanks: bytes)
    requires Blank(blanks)
    requires |file + blanks| <= 64
    ensures InstalledVersion(Some(file + blanks)) == InstalledVersion(Some(file))
  {
    var core, tail := CoreOf(file);
    assert file + blanks == core + (tail + blanks);
    InstalledIsExact(core, tail);
    InstalledIsExact(core, tail + blanks);
  }

  lemma {:induction false} CoreOf(file: bytes) returns (core: bytes, tail: bytes)
    ensures file == core + tail && Blank(tail)
    ensures core == [] || core[|core| - 1] !in {9, 10, 13, 32}
  {
    if file == [] || file[|file| - 1] !in {9, 10, 13, 32} {
      core, tail := file, [];
      assert file == file + [];
    } else {
      core, tail := CoreOf(file[..|file| - 1]);
      var last := file[|file| - 1];
      assert file == core + (tail + [last]);
      tail := tail + [last];
    }
  }

  /** The downgrade rule, by the secret and the hash file themselves: an older version passes only with a
      non-empty secret whose digest is the whole of the hash file. */
  lemma DowngradeIsExact(sha: bytes -> Digest, candidate: Version, installed: Version, secret: Option<bytes>,
      hashFile: Option<bytes>)
    ensures var decision := DowngradeDecision(sha, candidate, installed, secret, hashFile);
            var older := Number(candidate) < Number(installed);
            var secretFits := secret.Some? && secret.value != [] && hashFile == Some(sha(secret.value));
            && (decision == Allow <==> Number(candidate) > Number(installed) || (older && secretFits))
            && (decision == UpToDate <==> Number(candidate) == Number(installed))
            && (decision == Blocked <==> older && !secretFits)
            && (Overrides(sha, secret, hashFile) <==> secretFits)
  {
    hide Number;
    if secret.Some? {
      assert |sha(secret.value)| == 32;
    }
  }
}
