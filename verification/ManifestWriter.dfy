/** The text the packager writes as manifest.json, and exactly when the device's reader undoes it. */
module ManifestWriter {
  import opened Bytes
  import opened ManifestFormat

  // Every printer takes the text that follows, so that reading back is stated without positions.

  /** What stands after the backslash for a character that is not printable ASCII. */
  function ControlEscape(c: byte): (e: bytes)
    ensures e != [] && QUOTE !in e && !Escapable(e[0])
  {
    match c
    case 8 => Ascii("b")
    case 9 => Ascii("t")
    case 10 => Ascii("n")
    case 12 => Ascii("f")
    case 13 => Ascii("r")
    case _ => Ascii("u00") + [HexDigit(c / 16), HexDigit(c % 16)]
  }

  /** The characters of a string literal, one byte a character. */
  function Escaped(v: bytes, tail: bytes): bytes {
    if v == [] then tail else EscapedByte(v[0]) + Escaped(v[1..], tail)
  }

  function EscapedByte(c: byte): (e: bytes)
    ensures e != [] && (e[0] == BACKSLASH <==> NeedsEscape(c))
    ensures !NeedsEscape(c) ==> e == [c]
  {
    if c == QUOTE || c == BACKSLASH then [BACKSLASH, c]
    else if IsPrintable(c) then [c]
    else [BACKSLASH] + ControlEscape(c)
  }

  predicate NeedsEscape(c: byte) {
    c == QUOTE || c == BACKSLASH || !IsPrintable(c)
  }

  /** A JSON string literal. */
  function Quoted(v: bytes, tail: bytes): bytes {
    [QUOTE] + Escaped(v, [QUOTE] + tail)
  }

  /** A new line indented by `n` spaces. */
  function Indent(n: nat): bytes {
    [10] + seq(n, _ => SPACE)
  }

  function Pair(key: bytes, value: bytes, tail: bytes): bytes {
    Quoted(key, [COLON, SPACE] + Quoted(value, tail))
  }

  /** One object of the list, after its opening brace. */
  function ObjectText(r: Record, tail: bytes): bytes {
    Indent(6) + Pair(PATH, r.path, [COMMA] + (Indent(6) + Pair(SHA256, r.hash, Indent(4) + ([RBRACE] + tail))))
  }

  function ItemsText(records: seq<Record>, tail: bytes): bytes {
    if records == [] then tail
    else
      Indent(4) + ([LBRACE] + ObjectText(records[0],
        if |records| == 1 then tail else [COMMA] + ItemsText(records[1..], tail)))
  }

  function ListText(records: seq<Record>, tail: bytes): bytes {
    [LBRACKET] + (if records == [] then [RBRACKET] + tail else ItemsText(records, Indent(2) + ([RBRACKET] + tail)))
  }

  datatype Field = Field(key: bytes, value: bytes)

  /** The string fields that precede the list. */
  function FieldsText(fields: seq<Field>, tail: bytes): bytes {
    if fields == [] then tail
    else Pair(fields[0].key, fields[0].value, [COMMA] + (Indent(2) + FieldsText(fields[1..], tail)))
  }

  /** `json.dumps(manifest, indent=2)` of a dictionary of string fields followed by "files". */
  function ManifestText(fields: seq<Field>, records: seq<Record>): bytes {
    [LBRACE] + (Indent(2) + FieldsText(fields,
      Quoted(FILES, [COLON, SPACE] + ListText(records, Indent(0) + [RBRACE]))))
  }

  // ---- Reading strings back ----

  /** The string reader returns a printable value that fits, and gives up on any other; it stops just
      after the closing quote whatever follows. */
  lemma {:induction false} StringRoundTrip(v: bytes, tail: bytes, room: nat)
    ensures StringBody(Escaped(v, [QUOTE] + tail), room)
         == if Printable(v) && |v| <= room then Some(Read(v, tail)) else None
  {
    var s := Escaped(v, [QUOTE] + tail);
    if v == [] {
      assert s[1..] == tail;
    } else {
      var rest := Escaped(v[1..], [QUOTE] + tail);
      assert v == [v[0]] + v[1..];
      assert Printable(v) <==> IsPrintable(v[0]) && Printable(v[1..]);
      if room > 0 {
        StringRoundTrip(v[1..], tail, room - 1);
      }
      if v[0] == QUOTE || v[0] == BACKSLASH {
        assert s[2..] == rest && s[1] == v[0];
      } else if IsPrintable(v[0]) {
        assert s[1..] == rest;
      } else {
        assert s[1] == ControlEscape(v[0])[0];
      }
    }
  }

  // ---- The strings as JSON ----

  /** The value of a hexadecimal digit of either case. */
  function HexValue(c: byte): Option<byte> {
    if 48 <= c <= 57 then Some(c - 48)
    else if 97 <= c <= 102 then Some(c - 87)
    else if 65 <= c <= 70 then Some(c - 55)
    else None
  }

  /** The escapes of section 7 of RFC 8259, of characters below 256. */
  function Unescaped(c: byte): Option<byte> {
    if c in {34, 47, 92} then Some(c)
    else if c == 98 then Some(8)
    else if c == 102 then Some(12)
    else if c == 110 then Some(10)
    else if c == 114 then Some(13)
    else if c == 116 then Some(9)
    else None
  }

  /** A JSON string after its opening quote, read by that section, and what follows the closing quote. */
  function JsonString(s: bytes): Option<(bytes, bytes)> {
    if s == [] || s[0] < 32 then None
    else if s[0] == 34 then Some(([], s[1..]))
    else if s[0] != 92 then Prepended(s[0], JsonString(s[1..]))
    else if |s| >= 2 && Unescaped(s[1]).Some? then Prepended(Unescaped(s[1]).value, JsonString(s[2..]))
    else if |s| >= 6 && s[1..4] == [117, 48, 48] && HexValue(s[4]).Some? && HexValue(s[5]).Some? then
      Prepended((HexValue(s[4]).value * 16 + HexValue(s[5]).value), JsonString(s[6..]))
    else None
  }

  function Prepended(c: byte, read: Option<(bytes, bytes)>): Option<(bytes, bytes)> {
    if read.None? then None else Some(([c] + read.value.0, read.value.1))
  }

  lemma HexDigitReads(n: nat)
    requires n < 16
    ensures HexValue(HexDigit(n)) == Some(n)
  {
  }

  lemma LongEscapeIsJson(c: byte, rest: bytes)
    ensures JsonString([92, 117, 48, 48, HexDigit(c / 16), HexDigit(c % 16)] + rest) == Prepended(c, JsonString(rest))
  {
    HexDigitReads(c / 16);
    HexDigitReads(c % 16);
    hide HexDigit, HexValue, Prepended;
    var s := [92, 117, 48, 48, HexDigit(c / 16), HexDigit(c % 16)] + rest;
    assert s[6..] == rest && s[1..4] == [117, 48, 48];
    assert c == c / 16 * 16 + c % 16;
  }

  lemma ShortEscapeIsJson(c: byte, rest: bytes)
    requires Unescaped(c).Some?
    ensures JsonString([92, c] + rest) == Prepended(Unescaped(c).value, JsonString(rest))
  {
    hide Unescaped, Prepended, HexValue;
    var s := [92, c] + rest;
    assert s[2..] == rest;
  }

  lemma EscapeIsJson(c: byte, rest: bytes)
    ensures JsonString(EscapedByte(c) + rest) == Prepended(c, JsonString(rest))
  {
    if !NeedsEscape(c) {
      assert (EscapedByte(c) + rest)[1..] == rest;
    } else {
      hide JsonString;
      if c in {8, 9, 10, 12, 13, 34, 92} {
        var e := EscapedByte(c)[1];
        assert EscapedByte(c) == [92, e] && Unescaped(e) == Some(c);
        ShortEscapeIsJson(e, rest);
      } else {
        assert EscapedByte(c) == [92, 117, 48, 48, HexDigit(c / 16), HexDigit(c % 16)];
        LongEscapeIsJson(c, rest);
      }
    }
  }

  /** Whatever its bytes, a printed string is JSON for exactly that string. */
  lemma {:induction false} QuotedIsJson(v: bytes, tail: bytes)
    ensures JsonString(Escaped(v, [34] + tail)) == Some((v, tail))
  {
    if v == [] {
      assert ([34] + tail)[1..] == tail;
    } else {
      hide JsonString, EscapedByte;
      QuotedIsJson(v[1..], tail);
      EscapeIsJson(v[0], Escaped(v[1..], [34] + tail));
      assert [v[0]] + v[1..] == v;
    }
  }

  lemma QuotedRoundTrip(v: bytes, tail: bytes, room: nat)
    ensures ReadString(Quoted(v, tail), room) == if Printable(v) && |v| <= room then Some(Read(v, tail)) else None
  {
    StringRoundTrip(v, tail, room);
    assert Quoted(v, tail)[1..] == Escaped(v, [QUOTE] + tail);
  }

  lemma {:induction false} SkipSpaceRun(n: nat, s: bytes)
    requires s == [] || !IsJsonSpace(s[0])
    ensures SkipSpace(seq(n, _ => SPACE) + s) == s
  {
    var t := seq(n, _ => SPACE) + s;
    if n > 0 {
      SkipSpaceRun(n - 1, s);
      assert t[1..] == seq(n - 1, _ => SPACE) + s;
    } else {
      assert t == s;
    }
  }

  lemma SkipIndent(n: nat, s: bytes)
    requires s == [] || !IsJsonSpace(s[0])
    ensures SkipSpace(Indent(n) + s) == s
  {
    SkipSpaceRun(n, s);
    assert (Indent(n) + s)[1..] == seq(n, _ => SPACE) + s;
  }

  /** `": "` is read as a colon and a space. */
  lemma SkipColon(s: bytes)
    requires s != [] && !IsJsonSpace(s[0])
    ensures SkipSpace([COLON, SPACE] + s) == [COLON, SPACE] + s
    ensures SkipSpace(([COLON, SPACE] + s)[1..]) == s
  {
    SkipSpaceRun(1, s);
    assert ([COLON, SPACE] + s)[1..] == seq(1, _ => SPACE) + s;
  }

  lemma FieldNames()
    ensures CString(PATH) == PATH && CString(SHA256) == SHA256 && PATH != SHA256
    ensures |PATH| == 4 && |SHA256| == 6 && Printable(PATH) && Printable(SHA256)
  {
    CStringWhole(PATH);
    CStringWhole(SHA256);
  }

  predicate FitsPath(path: bytes) {
    Printable(path) && |path| <= MAX_PATH
  }

  predicate FitsHash(hash: bytes) {
    Printable(hash) && |hash| == HASH_LENGTH
  }

  /** A record the device can read back. */
  predicate Readable(r: Record) {
    FitsPath(r.path) && FitsHash(r.hash)
  }

  lemma PathRoundTrip(path: bytes, tail: bytes, f: Fields)
    requires f.path.Some? ==> |f.path.value| <= MAX_PATH
    requires f.hash.Some? ==> |f.hash.value| == HASH_LENGTH && NUL !in f.hash.value
    ensures ReadField(Pair(PATH, path, tail), f)
        == if FitsPath(path) then Some(Read(f.(path := Some(path)), tail)) else None
  {
    hide StringBody, SkipSpace, Escaped, Printable;
    FieldNames();
    var value := Quoted(path, tail);
    QuotedRoundTrip(PATH, [COLON, SPACE] + value, MAX_KEY);
    SkipColon(value);
    QuotedRoundTrip(path, tail, MAX_PATH);
  }

  lemma PrintableCString(s: bytes)
    requires Printable(s)
    ensures CString(s) == s
  {
    CStringWhole(s);
  }

  lemma HashRoundTrip(hash: bytes, tail: bytes, f: Fields)
    requires f.path.Some? ==> |f.path.value| <= MAX_PATH
    requires f.hash.Some? ==> |f.hash.value| == HASH_LENGTH && NUL !in f.hash.value
    ensures ReadField(Pair(SHA256, hash, tail), f)
        == if FitsHash(hash) then Some(Read(f.(hash := Some(hash)), tail)) else None
  {
    hide StringBody, SkipSpace, Escaped, Printable;
    FieldNames();
    var value := Quoted(hash, tail);
    QuotedRoundTrip(SHA256, [COLON, SPACE] + value, MAX_KEY);
    SkipColon(value);
    QuotedRoundTrip(hash, tail, HASH_LENGTH);
    if Printable(hash) {
      PrintableCString(hash);
    }
  }

  // ---- Reading the list back ----

  lemma ReadFieldsPair(n: nat, s: bytes, f: Fields)
    requires f.path.Some? ==> |f.path.value| <= MAX_PATH
    requires f.hash.Some? ==> |f.hash.value| == HASH_LENGTH && NUL !in f.hash.value
    requires s != [] && s[0] == QUOTE
    ensures ReadFields(Indent(n) + s, f)
         == match ReadField(s, f) case None => None case Some(Read(f', tail)) => ReadFields(tail, f')
  {
    SkipIndent(n, s);
  }

  lemma ObjectRoundTrip(r: Record, tail: bytes)
    ensures ReadFields(ObjectText(r, tail), Fields(None, None))
         == if Readable(r) then Some(Read(Fields(Some(r.path), Some(r.hash)), tail)) else None
  {
    hide ReadField, Pair, Printable;
    var close := [RBRACE] + tail;
    var second := Pair(SHA256, r.hash, Indent(4) + close);
    var comma := [COMMA] + (Indent(6) + second);
    var f0, f1 := Fields(None, None), Fields(Some(r.path), None);
    PairStartsWithQuote(PATH, r.path, comma);
    PathRoundTrip(r.path, comma, f0);
    ReadFieldsPair(6, Pair(PATH, r.path, comma), f0);
    if FitsPath(r.path) {
      assert comma[1..] == Indent(6) + second;
      PairStartsWithQuote(SHA256, r.hash, Indent(4) + close);
      HashRoundTrip(r.hash, Indent(4) + close, f1);
      ReadFieldsPair(6, second, f1);
      SkipIndent(4, close);
      assert close[1..] == tail;
    }
  }

  lemma PairStartsWithQuote(key: bytes, value: bytes, tail: bytes)
    ensures Pair(key, value, tail) != [] && Pair(key, value, tail)[0] == QUOTE
  {
  }

  lemma ReadRecordsObject(r: Record, tail: bytes)
    ensures ReadRecords(Indent(4) + ([LBRACE] + ObjectText(r, tail)))
         == if Readable(r) then ConsRecord(r, ReadRecords(tail)) else None
  {
    hide ReadFields, ObjectText, Readable;
    ObjectRoundTrip(r, tail);
    var s := [LBRACE] + ObjectText(r, tail);
    SkipIndent(4, s);
    assert s[1..] == ObjectText(r, tail);
  }

  predicate AllReadable(records: seq<Record>) {
    forall k | 0 <= k < |records| :: Readable(records[k])
  }

  lemma AllReadableCons(records: seq<Record>)
    requires records != []
    ensures AllReadable(records) <==> Readable(records[0]) && AllReadable(records[1..])
  {
    hide Readable;
    assert records == [records[0]] + records[1..];
  }

  lemma {:induction false} ItemsRoundTrip(records: seq<Record>, tail: bytes)
    requires records != []
    ensures ReadRecords(ItemsText(records, Indent(2) + ([RBRACKET] + tail)))
        == if AllReadable(records) then Some(records) else None
  {
    hide ReadFields, ObjectText, Readable, ValidRecord, AllReadable;
    var end := Indent(2) + ([RBRACKET] + tail);
    assert records == [records[0]] + records[1..];
    AllReadableCons(records);
    if |records| == 1 {
      ReadRecordsObject(records[0], end);
      SkipIndent(2, [RBRACKET] + tail);
      NothingReadable(records[1..]);
    } else {
      var more := ItemsText(records[1..], end);
      ReadRecordsObject(records[0], [COMMA] + more);
      assert ([COMMA] + more)[1..] == more;
      ItemsRoundTrip(records[1..], tail);
    }
  }

  lemma NothingReadable(records: seq<Record>)
    ensures records == [] ==> AllReadable(records)
  {
  }

  /** The printed list reads back as it was, or not at all. */
  lemma ListRoundTrip(records: seq<Record>, tail: bytes)
    ensures ReadArray([COLON, SPACE] + ListText(records, tail)) == if AllReadable(records) then Some(records) else None
  {
    hide ReadRecords, ItemsText, ValidRecord, AllReadable;
    var list := ListText(records, tail);
    SkipColon(list);
    NothingReadable(records);
    if records == [] {
      EmptyList(tail);
      assert list[1..] == [RBRACKET] + tail;
    } else {
      ItemsRoundTrip(records, tail);
      assert list[1..] == ItemsText(records, Indent(2) + ([RBRACKET] + tail));
    }
  }

  lemma EmptyList(tail: bytes)
    ensures ReadRecords([RBRACKET] + tail) == Some([])
  {
  }

  // ---- Finding the key ----

  /** `"files` with the opening quote, closed by whatever quote comes next. */
  const FILES_TAIL: bytes := Ascii("\"files")

  /** A string whose printed form contains the bytes `"files"`: the raw search stops in it. */
  predicate Misleads(v: bytes) {
    v == FILES || EndsWith(v, FILES_TAIL)
  }

  lemma KeyBytes()
    ensures FILES_KEY == [QUOTE] + FILES + [QUOTE] && FILES_TAIL == [QUOTE] + FILES
    ensures FILES == [102, 105, 108, 101, 115]
  {
  }

  /** Printed text starts with an unescaped word and a quote only if the word is the whole value. */
  lemma {:induction false} EscapedStarts(v: bytes, word: bytes, tail: bytes)
    requires forall c <- word :: !NeedsEscape(c)
    ensures word + [QUOTE] <= Escaped(v, [QUOTE] + tail) <==> v == word
  {
    var s := Escaped(v, [QUOTE] + tail);
    if word == [] {
      assert word + [QUOTE] == [QUOTE];
      assert [QUOTE] <= s <==> s[0] == QUOTE;
    } else {
      var c := word[0];
      assert c in word;
      assert word == [c] + word[1..];
      assert (word + [QUOTE])[0] == c;
      if v != [] && v[0] == c {
        assert EscapedByte(c) == [c];
        EscapedStarts(v[1..], word[1..], tail);
        var rest := Escaped(v[1..], [QUOTE] + tail);
        assert s == [c] + rest;
        assert word + [QUOTE] == [c] + (word[1..] + [QUOTE]);
        PrefixCons(c, word[1..] + [QUOTE], rest);
        assert v == [c] + v[1..];
      } else {
        assert v != [] ==> s[0] == EscapedByte(v[0])[0];
        assert s[0] != c;
      }
    }
  }

  lemma PrefixCons(c: byte, a: bytes, b: bytes)
    ensures [c] + a <= [c] + b <==> a <= b
  {
    assert ([c] + a)[1..] == a && ([c] + b)[1..] == b;
    if a <= b {
      assert b == a + b[|a|..];
      assert [c] + b == [c] + a + b[|a|..];
    }
    if [c] + a <= [c] + b {
      assert forall i | 0 <= i < |a| :: ([c] + a)[i + 1] == a[i] && ([c] + b)[i + 1] == b[i];
    }
  }

  lemma SkipNonQuote(c: byte, s: bytes)
    requires c != QUOTE
    ensures AfterKey([c] + s) == AfterKey(s)
  {
    KeyBytes();
    var t := [c] + s;
    assert t[1..] == s;
    if |t| >= |FILES_KEY| {
      assert t[..|FILES_KEY|][0] == c;
    }
  }

  lemma {:induction false} SearchPlain(front: bytes, s: bytes)
    requires QUOTE !in front
    ensures AfterKey(front + s) == AfterKey(s)
  {
    hide AfterKey;
    if front == [] {
      assert front + s == s;
    } else {
      SearchPlain(front[1..], s);
      SkipNonQuote(front[0], front[1..] + s);
      assert front + s == [front[0]] + (front[1..] + s);
    }
  }

  /** At a quote the search stops just when the five letters and a quote follow. */
  lemma AtQuote(s: bytes)
    ensures AfterKey([QUOTE] + s) == if FILES + [QUOTE] <= s then Some(s[6..]) else AfterKey(s)
  {
    KeyBytes();
    var t := [QUOTE] + s;
    assert t[1..] == s;
    assert FILES_KEY == [QUOTE] + (FILES + [QUOTE]);
    if |t| >= |FILES_KEY| {
      assert t[..7] == [QUOTE] + s[..6];
      assert t[7..] == s[6..];
      assert t[..7] == FILES_KEY <==> s[..6] == FILES + [QUOTE];
    }
  }

  lemma EndsWithTail(v: bytes)
    requires v != []
    ensures EndsWith(v, FILES_TAIL) <==> EndsWith(v[1..], FILES_TAIL) || (v[0] == QUOTE && v[1..] == FILES)
  {
    KeyBytes();
    var rest := v[1..];
    assert v == [v[0]] + rest;
    if |v| > 6 {
      assert v[|v| - 6..] == rest[|rest| - 6..];
    } else if |v| == 6 {
      assert v[0..] == v;
    }
  }

  /** The search through the rest of a string and the byte after its closing quote. */
  lemma {:induction false} SearchString(v: bytes, tail: bytes)
    requires tail != [] && tail[0] != 102
    ensures AfterKey(Escaped(v, [QUOTE] + tail))
         == if EndsWith(v, FILES_TAIL) then Some(tail) else AfterKey(tail)
  {
    hide AfterKey;
    KeyBytes();
    var s := Escaped(v, [QUOTE] + tail);
    if v == [] {
      AtQuote(tail);
      assert (FILES + [QUOTE])[0] == 102;
    } else {
      var rest := Escaped(v[1..], [QUOTE] + tail);
      SearchString(v[1..], tail);
      EndsWithTail(v);
      if !IsPrintable(v[0]) {
        SearchPlain([BACKSLASH] + ControlEscape(v[0]), rest);
      } else if v[0] == QUOTE {
        assert s == [BACKSLASH] + ([QUOTE] + rest);
        SkipNonQuote(BACKSLASH, [QUOTE] + rest);
        AtQuote(rest);
        EscapedStarts(v[1..], FILES, tail);
        if v[1..] == FILES {
          EscapedPlain(FILES, [QUOTE] + tail);
          assert rest[6..] == tail;
        }
      } else if v[0] == BACKSLASH {
        assert s == [BACKSLASH] + ([BACKSLASH] + rest);
        SkipNonQuote(BACKSLASH, [BACKSLASH] + rest);
        SkipNonQuote(BACKSLASH, rest);
      } else {
        SkipNonQuote(v[0], rest);
      }
    }
  }

  lemma {:induction false} EscapedPlain(v: bytes, tail: bytes)
    requires forall i | 0 <= i < |v| :: !NeedsEscape(v[i])
    ensures Escaped(v, tail) == v + tail
  {
    if v == [] {
      assert v + tail == tail;
    } else {
      EscapedPlain(v[1..], tail);
      assert v + tail == [v[0]] + (v[1..] + tail);
    }
  }

  /** The search through a whole string literal. */
  lemma SearchQuoted(v: bytes, tail: bytes)
    requires tail != [] && tail[0] != 102
    ensures AfterKey(Quoted(v, tail)) == if Misleads(v) then Some(tail) else AfterKey(tail)
  {
    hide AfterKey;
    KeyBytes();
    var rest := Escaped(v, [QUOTE] + tail);
    AtQuote(rest);
    EscapedStarts(v, FILES, tail);
    SearchString(v, tail);
    if v == FILES {
      EscapedPlain(FILES, [QUOTE] + tail);
      assert rest[6..] == tail;
    }
  }

  lemma {:induction false} SearchSpaces(n: nat, s: bytes)
    ensures AfterKey(seq(n, _ => SPACE) + s) == AfterKey(s)
  {
    hide AfterKey;
    if n == 0 {
      assert seq(n, _ => SPACE) + s == s;
    } else {
      SearchSpaces(n - 1, s);
      SkipNonQuote(SPACE, seq(n - 1, _ => SPACE) + s);
      assert seq(n, _ => SPACE) + s == [SPACE] + (seq(n - 1, _ => SPACE) + s);
    }
  }

  lemma SearchIndent(n: nat, s: bytes)
    ensures AfterKey(Indent(n) + s) == AfterKey(s)
  {
    hide AfterKey;
    SearchSpaces(n, s);
    SkipNonQuote(10, seq(n, _ => SPACE) + s);
    assert Indent(n) + s == [10] + (seq(n, _ => SPACE) + s);
  }

  ghost predicate Misleading(f: Field) {
    Misleads(f.key) || Misleads(f.value)
  }

  /** What the reader makes of the text it finds after the key. */
  ghost function Continue(after: Option<bytes>): Option<seq<Record>> {
    if after.None? then None else ReadArray(after.value)
  }

  /** A misleading field makes the reader give up; any other is passed over. */
  lemma SearchPair(f: Field, tail: bytes)
    requires tail != [] && tail[0] == COMMA
    ensures Misleading(f) ==> Continue(AfterKey(Pair(f.key, f.value, tail))) == None
    ensures !Misleading(f) ==> AfterKey(Pair(f.key, f.value, tail)) == AfterKey(tail)
  {
    hide AfterKey, Misleads, ReadRecords;
    var value := Quoted(f.value, tail);
    var colon := [COLON, SPACE] + value;
    SearchQuoted(f.key, colon);
    SkipColon(value);
    assert colon == [COLON] + ([SPACE] + value);
    SkipNonQuote(COLON, [SPACE] + value);
    SkipNonQuote(SPACE, value);
    SearchQuoted(f.value, tail);
    assert SkipSpace(tail) == tail;
  }

  lemma {:induction false} SearchFields(fields: seq<Field>, tail: bytes)
    ensures (exists k :: 0 <= k < |fields| && Misleading(fields[k]))
        ==> Continue(AfterKey(FieldsText(fields, tail))) == None
    ensures !(exists k :: 0 <= k < |fields| && Misleading(fields[k]))
        ==> AfterKey(FieldsText(fields, tail)) == AfterKey(tail)
  {
    hide AfterKey, Misleading, Pair, Continue;
    if fields != [] {
      var more := FieldsText(fields[1..], tail);
      var comma := [COMMA] + (Indent(2) + more);
      SearchPair(fields[0], comma);
      SkipNonQuote(COMMA, Indent(2) + more);
      SearchIndent(2, more);
      SearchFields(fields[1..], tail);
      assert forall k | 1 <= k < |fields| :: fields[k] == fields[1..][k - 1];
    }
  }

  /** No field before the list has a key or value that is `files`, or that ends in a quote and `files`. */
  ghost predicate Searchable(fields: seq<Field>) {
    forall k | 0 <= k < |fields| :: !Misleading(fields[k])
  }

  lemma SearchManifest(fields: seq<Field>, records: seq<Record>)
    ensures Searchable(fields) ==>
              AfterKey(ManifestText(fields, records)) == Some([COLON, SPACE] + ListText(records, Indent(0) + [RBRACE]))
    ensures !Searchable(fields) ==> ParseManifest(ManifestText(fields, records)) == None
  {
    hide AfterKey, Misleading, FieldsText, ListText;
    var list := [COLON, SPACE] + ListText(records, Indent(0) + [RBRACE]);
    var body := FieldsText(fields, Quoted(FILES, list));
    SkipNonQuote(LBRACE, Indent(2) + body);
    SearchIndent(2, body);
    SearchFields(fields, Quoted(FILES, list));
    SearchQuoted(FILES, list);
  }

  /** Manifest round trip, on all inputs: the reader returns exactly the printed records when no earlier
      field misleads its search and every record is readable, and gives up on all other manifests. */
  lemma ManifestRoundTrip(fields: seq<Field>, records: seq<Record>)
    ensures ParseManifest(ManifestText(fields, records))
         == if Searchable(fields) && AllReadable(records) then Some(records) else None
  {
    hide AfterKey, Searchable, AllReadable, ValidRecord, ManifestText, ReadArray;
    SearchManifest(fields, records);
    ListRoundTrip(records, Indent(0) + [RBRACE]);
  }
}
