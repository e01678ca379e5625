/** The device's reader of the "files" list inside manifest.json: a narrow JSON subset (strings as in
    section 7 of RFC 8259, three escapes only). */
module ManifestFormat {
  import opened Bytes
  import opened Results
  import TarFormat

  const QUOTE: byte := 34
  const COMMA: byte := 44
  const COLON: byte := 58
  const BACKSLASH: byte := 92
  const LBRACKET: byte := 91
  const RBRACKET: byte := 93
  const LBRACE: byte := 123
  const RBRACE: byte := 125

  const MAX_KEY: nat := 15
  const MAX_PATH: nat := 255
  const HASH_LENGTH: nat := 64

  const FILES: bytes := Ascii("files")
  const FILES_KEY: bytes := Ascii("\"files\"")
  const PATH: bytes := Ascii("path")
  const SHA256: bytes := Ascii("sha256")

  datatype Record = Record(path: bytes, hash: bytes)

  /** A value read from the front of the text, and the text left. */
  datatype Read<T> = Read(value: T, rest: bytes)

  /** What one object of the list holds so far. */
  datatype Fields = Fields(path: Option<bytes>, hash: Option<bytes>)

  ghost predicate ValidRecord(r: Record) {
    |r.path| <= MAX_PATH && |r.hash| == HASH_LENGTH && NUL !in r.hash
  }

  // ---- White space and strings ----

  predicate IsJsonSpace(c: byte) {
    c in {32, 9, 10, 13}
  }

  function SkipSpace(s: bytes): (r: bytes)
    ensures |r| <= |s|
    ensures r != [] ==> !IsJsonSpace(r[0])
  {
    if s != [] && IsJsonSpace(s[0]) then SkipSpace(s[1..]) else s
  }

  method SkipJsonWhitespace(buf: bytes, pos: nat) returns (next: nat)
    requires pos <= |buf|
    ensures pos <= next <= |buf| && buf[next..] == SkipSpace(buf[pos..])
  {
    next := pos;
    while next < |buf| && (buf[next] == 32 || buf[next] == 9 || buf[next] == 10 || buf[next] == 13)
      invariant pos <= next <= |buf|
      invariant SkipSpace(buf[next..]) == SkipSpace(buf[pos..])
    {
      assert buf[next..][1..] == buf[next + 1..];
      next := next + 1;
    }
  }

  predicate Escapable(c: byte) {
    c in {QUOTE, BACKSLASH, 47}
  }

  function Cons(c: byte, tail: Option<Read<bytes>>): Option<Read<bytes>> {
    if tail.Some? then Some(Read([c] + tail.value.value, tail.value.rest)) else None
  }

  /** The rest of a string after its opening quote: at most `room` characters up to the closing quote. */
  function StringBody(s: bytes, room: nat): (r: Option<Read<bytes>>)
    ensures r.Some? ==> |r.value.rest| < |s| && |r.value.value| <= room
  {
    if s == [] then None
    else if s[0] == QUOTE then Some(Read([], s[1..]))
    else if s[0] != BACKSLASH then (if room == 0 then None else Cons(s[0], StringBody(s[1..], room - 1)))
    else if |s| < 2 || !Escapable(s[1]) || room == 0 then None
    else Cons(s[1], StringBody(s[2..], room - 1))
  }

  function ReadString(s: bytes, room: nat): (r: Option<Read<bytes>>)
    ensures r.Some? ==> |r.value.rest| < |s| && |r.value.value| <= room
  {
    if s == [] || s[0] != QUOTE then None else StringBody(s[1..], room)
  }

  ghost function Prefixed(front: bytes, r: Option<Read<bytes>>): Option<Read<bytes>> {
    if r.Some? then Some(Read(front + r.value.value, r.value.rest)) else None
  }

  lemma PrefixedCons(front: bytes, c: byte, r: Option<Read<bytes>>)
    ensures Prefixed(front, Cons(c, r)) == Prefixed(front + [c], r)
  {
    if r.Some? {
      assert front + ([c] + r.value.value) == front + [c] + r.value.value;
    }
  }

  lemma PrefixedNone(front: bytes)
    ensures Prefixed(front, None) == None
  {
  }

  lemma PrefixedEnd(front: bytes, rest: bytes)
    ensures Prefixed(front, Some(Read([], rest))) == Some(Read(front, rest))
  {
    assert front + [] == front;
  }

  lemma PrefixedNothing(r: Option<Read<bytes>>)
    ensures Prefixed([], r) == r
  {
    if r.Some? {
      assert [] + r.value.value == r.value.value;
    }
  }

  /** The string reader's step at position `i`, by the byte found there. */
  lemma StringStep(buf: bytes, i: nat, room: nat)
    requires i <= |buf|
    ensures var here := StringBody(buf[i..], room);
            if i == |buf| then here == None
            else if buf[i] == QUOTE then here == Some(Read([], buf[i + 1..]))
            else if buf[i] != BACKSLASH then
              here == if room == 0 then None else Cons(buf[i], StringBody(buf[i + 1..], room - 1))
            else if i + 1 == |buf| || !Escapable(buf[i + 1]) || room == 0 then here == None
            else here == Cons(buf[i + 1], StringBody(buf[i + 2..], room - 1))
  {
    if i < |buf| {
      assert buf[i..][1..] == buf[i + 1..];
      if i + 1 < |buf| {
        assert buf[i..][2..] == buf[i + 2..];
      }
    }
  }

  /** One character of a string, unescaped. */
  method ReadCharacter(buf: bytes, i: nat, ghost room: nat) returns (ok: bool, c: byte, next: nat)
    requires i < |buf| && buf[i] != QUOTE
    ensures ok ==> i < next <= |buf|
    ensures !ok ==> StringBody(buf[i..], room) == None
    ensures ok ==> StringBody(buf[i..], room) == if room == 0 then None else Cons(c, StringBody(buf[next..], room - 1))
  {
    hide StringBody;
    StringStep(buf, i, room);
    c := buf[i];
    if c == BACKSLASH {
      if i + 1 >= |buf| {
        return false, c, i;
      }
      var escaped := buf[i + 1];
      if escaped != QUOTE && escaped != BACKSLASH && escaped != 47 {
        return false, c, i;
      }
      return true, escaped, i + 2;
    }
    return true, c, i + 1;
  }

  /** The loop of the string reader: the characters from `start` up to the closing quote. */
  method ReadCharacters(buf: bytes, start: nat, out: array<byte>) returns (ok: bool, end: nat, length: nat)
    requires start <= |buf| && out.Length >= 1
    modifies out
    ensures !ok ==> StringBody(buf[start..], out.Length - 1) == None
    ensures ok ==> start <= end < |buf| && length < out.Length
    ensures ok ==> StringBody(buf[start..], out.Length - 1) == Some(Read(out[..length], buf[end + 1..]))
  {
    hide StringBody, Cons, Prefixed;
    length, end := 0, start;
    ghost var room := out.Length - 1;
    ghost var result := StringBody(buf[start..], room);
    assert out[..0] == [];
    PrefixedNothing(result);
    while end < |buf| && buf[end] != QUOTE
      invariant start <= end <= |buf| && length <= room
      invariant result == Prefixed(out[..length], StringBody(buf[end..], room - length))
    {
      var characterOk, c, after := ReadCharacter(buf, end, room - length);
      PrefixedNone(out[..length]);
      if !characterOk || length + 1 >= out.Length {
        return false, end, 0;
      }
      end := after;
      ghost var before := out[..length];
      PrefixedCons(before, c, StringBody(buf[end..], room - length - 1));
      out[length] := c;
      length := length + 1;
      assert out[..length] == before + [c];
    }
    StringStep(buf, end, room - length);
    PrefixedNone(out[..length]);
    if end >= |buf| {
      return false, end, 0;
    }
    PrefixedEnd(out[..length], buf[end + 1..]);
    return true, end, length;
  }

  /** Reads a string at `pos` into `out`, NUL-terminated; `out` must have room for the terminator. */
  method ExtractJsonString(buf: bytes, pos: nat, out: array<byte>) returns (ok: bool, next: nat, length: nat)
    requires pos <= |buf| && out.Length >= 1
    modifies out
    ensures ok <==> ReadString(buf[pos..], out.Length - 1).Some?
    ensures ok ==> pos < next <= |buf| && length < out.Length && out[length] == NUL
    ensures ok ==> ReadString(buf[pos..], out.Length - 1) == Some(Read(out[..length], buf[next..]))
  {
    hide StringBody;
    if pos >= |buf| || buf[pos] != QUOTE {
      return false, pos, 0;
    }
    assert buf[pos..][1..] == buf[pos + 1..];
    ok, next, length := ReadCharacters(buf, pos + 1, out);
    if !ok {
      return false, pos, 0;
    }
    ghost var characters := out[..length];
    out[length] := NUL;
    assert out[..length] == characters;
    return true, next + 1, length;
  }

  // ---- One object of the list ----

  /** The fields of an object up to its closing brace. Commas are skipped wherever they stand, and a
      repeated key overwrites. */
  ghost function ReadFields(s: bytes, f: Fields): (r: Option<Read<Fields>>)
    requires f.path.Some? ==> |f.path.value| <= MAX_PATH
    requires f.hash.Some? ==> |f.hash.value| == HASH_LENGTH && NUL !in f.hash.value
    ensures r.Some? ==> |r.value.rest| < |s|
    ensures r.Some? && r.value.value.path.Some? ==> |r.value.value.path.value| <= MAX_PATH
    ensures r.Some? && r.value.value.hash.Some? ==>
              |r.value.value.hash.value| == HASH_LENGTH && NUL !in r.value.value.hash.value
    decreases |s|
  {
    var t := SkipSpace(s);
    if t == [] then None
    else if t[0] == RBRACE then Some(Read(f, t[1..]))
    else if t[0] == COMMA then ReadFields(t[1..], f)
    else
      match ReadField(t, f)
      case None => None
      case Some(Read(f', rest)) => ReadFields(rest, f')
  }

  /** One `"key": "value"` pair. */
  ghost function ReadField(t: bytes, f: Fields): (r: Option<Read<Fields>>)
    requires f.path.Some? ==> |f.path.value| <= MAX_PATH
    requires f.hash.Some? ==> |f.hash.value| == HASH_LENGTH && NUL !in f.hash.value
    ensures r.Some? ==> |r.value.rest| < |t|
    ensures r.Some? && r.value.value.path.Some? ==> |r.value.value.path.value| <= MAX_PATH
    ensures r.Some? && r.value.value.hash.Some? ==>
              |r.value.value.hash.value| == HASH_LENGTH && NUL !in r.value.value.hash.value
  {
    var key := ReadString(t, MAX_KEY);
    if key.None? then None
    else
      var u := SkipSpace(key.value.rest);
      if u == [] || u[0] != COLON then None
      else
        var v := SkipSpace(u[1..]);
        if CString(key.value.value) == PATH then
          var path := ReadString(v, MAX_PATH);
          if path.None? then None else Some(Read(f.(path := Some(path.value.value)), path.value.rest))
        else if CString(key.value.value) == SHA256 then
          var hash := ReadString(v, HASH_LENGTH);
          if hash.None? || |CString(hash.value.value)| != HASH_LENGTH then None
          else
            CStringIsPrefix(hash.value.value);
            Some(Read(f.(hash := Some(hash.value.value)), hash.value.rest))
        else
          None
  }

  /** `strcmp` of a NUL-terminated buffer with a literal. */
  method EqualsLiteral(buffer: array<byte>, length: nat, literal: bytes) returns (same: bool)
    requires length < buffer.Length
    ensures same <==> CString(buffer[..length]) == literal
  {
    var n := BoundedStrlen(buffer[..length]);
    same := buffer[..length][..n] == literal;
  }

  /** One pass of the inner loop that meets neither a brace nor a comma. */
  method ParseField(buf: bytes, pos: nat, f: Fields) returns (ok: bool, f': Fields, next: nat)
    requires pos <= |buf|
    requires f.path.Some? ==> |f.path.value| <= MAX_PATH
    requires f.hash.Some? ==> |f.hash.value| == HASH_LENGTH && NUL !in f.hash.value
    ensures ok ==> next <= |buf| && ReadField(buf[pos..], f) == Some(Read(f', buf[next..]))
    ensures !ok ==> ReadField(buf[pos..], f) == None
  {
    hide StringBody, SkipSpace;
    f', next := f, pos;
    var fieldKey := new byte[MAX_KEY + 1];
    var keyOk, afterKey, keyLength := ExtractJsonString(buf, pos, fieldKey);
    if !keyOk {
      return false, f, pos;
    }
    var colon := SkipJsonWhitespace(buf, afterKey);
    if colon >= |buf| || buf[colon] != COLON {
      return false, f, pos;
    }
    assert buf[colon..][1..] == buf[colon + 1..];
    var start := SkipJsonWhitespace(buf, colon + 1);
    var isPath := EqualsLiteral(fieldKey, keyLength, PATH);
    if isPath {
      var path := new byte[MAX_PATH + 1];
      var length;
      ok, next, length := ExtractJsonString(buf, start, path);
      if ok {
        f' := f.(path := Some(path[..length]));
      }
      return ok, f', next;
    }
    var isHash := EqualsLiteral(fieldKey, keyLength, SHA256);
    if isHash {
      var hash := new byte[HASH_LENGTH + 1];
      var length;
      ok, next, length := ExtractJsonString(buf, start, hash);
      if ok {
        var n := BoundedStrlen(hash[..length]);
        if n != HASH_LENGTH {
          return false, f, pos;
        }
        f' := f.(hash := Some(hash[..length]));
      }
      return ok, f', next;
    }
    return false, f, pos;
  }

  /** The inner loop: `pos` moves forward until the closing brace. */
  method ParseObject(buf: bytes, start: nat) returns (ok: bool, f: Fields, pos: nat)
    requires start <= |buf|
    ensures ok ==> start < pos <= |buf| && ReadFields(buf[start..], Fields(None, None)) == Some(Read(f, buf[pos..]))
    ensures !ok ==> ReadFields(buf[start..], Fields(None, None)) == None
  {
    f, pos := Fields(None, None), start;
    while true
      invariant start <= pos <= |buf|
      invariant f.path.Some? ==> |f.path.value| <= MAX_PATH
      invariant f.hash.Some? ==> |f.hash.value| == HASH_LENGTH && NUL !in f.hash.value
      invariant ReadFields(buf[start..], Fields(None, None)) == ReadFields(buf[pos..], f)
      decreases |buf| - pos
    {
      hide ReadField, SkipSpace;
      var at := SkipJsonWhitespace(buf, pos);
      if at >= |buf| {
        return false, f, pos;
      }
      assert buf[at..][1..] == buf[at + 1..];
      if buf[at] == RBRACE {
        return true, f, at + 1;
      }
      if buf[at] == COMMA {
        pos := at + 1;
        continue;
      }
      var fieldOk, f', next := ParseField(buf, at, f);
      if !fieldOk {
        return false, f, pos;
      }
      assert |buf[next..]| < |buf[at..]|;
      f, pos := f', next;
    }
  }

  // ---- The list ----

  function ConsRecord(r: Record, tail: Option<seq<Record>>): Option<seq<Record>> {
    if tail.Some? then Some([r] + tail.value) else None
  }

  /** The objects up to the closing bracket; text after it is never looked at. */
  ghost function ReadRecords(s: bytes): (r: Option<seq<Record>>)
    ensures r.Some? ==> forall k | 0 <= k < |r.value| :: ValidRecord(r.value[k])
    decreases |s|
  {
    var t := SkipSpace(s);
    if t == [] then None
    else if t[0] == RBRACKET then Some([])
    else if t[0] == COMMA then ReadRecords(t[1..])
    else if t[0] != LBRACE then None
    else
      match ReadFields(t[1..], Fields(None, None))
      case None => None
      case Some(Read(f, rest)) =>
        if f.path.None? || f.hash.None? then None
        else ConsRecord(Record(f.path.value, f.hash.value), ReadRecords(rest))
  }

  /** The text after the first occurrence of the bytes `"files"`, wherever they stand. */
  ghost function AfterKey(s: bytes): (r: Option<bytes>)
    ensures r.Some? ==> |r.value| < |s|
  {
    if |s| < |FILES_KEY| then None
    else if s[..|FILES_KEY|] == FILES_KEY then Some(s[|FILES_KEY|..])
    else AfterKey(s[1..])
  }

  /** The records that `parse_manifest_files` finds, or None where it gives up. */
  ghost function ParseManifest(s: bytes): (r: Option<seq<Record>>)
    ensures r.Some? ==> forall k | 0 <= k < |r.value| :: ValidRecord(r.value[k])
  {
    var after := AfterKey(s);
    if after.None? then None else ReadArray(after.value)
  }

  ghost function ReadArray(s: bytes): (r: Option<seq<Record>>)
    ensures r.Some? ==> forall k | 0 <= k < |r.value| :: ValidRecord(r.value[k])
  {
    var t := SkipSpace(s);
    if t == [] || t[0] != COLON then None
    else
      var u := SkipSpace(t[1..]);
      if u == [] || u[0] != LBRACKET then None else ReadRecords(u[1..])
  }

  /** The raw byte search for the key. */
  method FindFilesKey(buf: bytes) returns (found: bool, after: nat)
    ensures found ==> after <= |buf| && AfterKey(buf) == Some(buf[after..])
    ensures !found ==> AfterKey(buf) == None
  {
    after := 0;
    var i := 0;
    assert buf[0..] == buf;
    while i + |FILES_KEY| <= |buf|
      invariant i <= |buf|
      invariant AfterKey(buf) == AfterKey(buf[i..])
    {
      assert buf[i..][..|FILES_KEY|] == buf[i..i + |FILES_KEY|];
      assert buf[i..][|FILES_KEY|..] == buf[i + |FILES_KEY|..];
      assert buf[i..][1..] == buf[i + 1..];
      if buf[i..i + |FILES_KEY|] == FILES_KEY {
        return true, i + |FILES_KEY|;
      }
      i := i + 1;
    }
    return false, 0;
  }

  ghost function Appended(front: seq<Record>, r: Option<seq<Record>>): Option<seq<Record>> {
    if r.Some? then Some(front + r.value) else None
  }

  lemma AppendedCons(front: seq<Record>, x: Record, r: Option<seq<Record>>)
    ensures Appended(front, ConsRecord(x, r)) == Appended(front + [x], r)
  {
    if r.Some? {
      assert front + ([x] + r.value) == front + [x] + r.value;
    }
  }

  lemma AppendedEnd(front: seq<Record>)
    ensures Appended(front, None) == None
    ensures Appended(front, Some([])) == Some(front)
  {
    assert front + [] == front;
  }

  lemma AppendedNothing(r: Option<seq<Record>>)
    ensures Appended([], r) == r
  {
    if r.Some? {
      assert [] + r.value == r.value;
    }
  }

  /** What one iteration of the outer loop meets. */
  datatype ListStep = ListBroken | ListEnd | ListComma(next: nat) | ListObject(record: Record, next: nat)

  ghost predicate IsStep(buf: bytes, pos: nat, step: ListStep)
    requires pos <= |buf|
  {
    var here := ReadRecords(buf[pos..]);
    match step
    case ListBroken => here == None
    case ListEnd => here == Some([])
    case ListComma(next) => pos < next <= |buf| && here == ReadRecords(buf[next..])
    case ListObject(r, next) => pos < next <= |buf| && here == ConsRecord(r, ReadRecords(buf[next..]))
  }

  /** One iteration of the outer loop. */
  method ParseListStep(buf: bytes, pos: nat) returns (step: ListStep)
    requires pos <= |buf|
    ensures IsStep(buf, pos, step)
  {
    hide ReadFields, SkipSpace, ValidRecord, ConsRecord;
    var at := SkipJsonWhitespace(buf, pos);
    if at >= |buf| {
      return ListBroken;
    }
    assert buf[at..][1..] == buf[at + 1..];
    if buf[at] == RBRACKET {
      return ListEnd;
    }
    if buf[at] == COMMA {
      return ListComma(at + 1);
    }
    if buf[at] != LBRACE {
      return ListBroken;
    }
    var ok, f, next := ParseObject(buf, at + 1);
    if !ok || f.path.None? || f.hash.None? {
      return ListBroken;
    }
    return ListObject(Record(f.path.value, f.hash.value), next);
  }

  /** The outer loop: fills a growing array of records, and hands back an empty one on any error. */
  method ParseRecords(buf: bytes, start: nat) returns (code: InstallResult, files: array<Record>, count: nat)
    requires start <= |buf|
    ensures count <= files.Length && fresh(files)
    ensures code == InstallOk ==> ReadRecords(buf[start..]) == Some(files[..count])
    ensures code != InstallOk ==> code == ManifestParse && ReadRecords(buf[start..]) == None && count == 0
  {
    files, count := new Record[0], 0;
    var pos := start;
    AppendedNothing(ReadRecords(buf[start..]));
    assert files[..0] == [];
    while true
      invariant start <= pos <= |buf|
      invariant count <= files.Length && fresh(files)
      invariant ReadRecords(buf[start..]) == Appended(files[..count], ReadRecords(buf[pos..]))
      decreases |buf| - pos
    {
      hide Appended, ConsRecord, ReadRecords, ValidRecord;
      ghost var before := files[..count];
      AppendedEnd(before);
      var step := ParseListStep(buf, pos);
      match step {
        case ListBroken =>
          return ManifestParse, new Record[0], 0;
        case ListEnd =>
          return InstallOk, files, count;
        case ListComma(next) =>
          pos := next;
        case ListObject(entry, next) =>
          AppendedCons(before, entry, ReadRecords(buf[next..]));
          files := TarFormat.Grow(files, count, 8);
          files[count] := entry;
          count := count + 1;
          assert files[..count] == before + [entry];
          pos := next;
      }
    }
  }

  /** `parse_manifest_files`. */
  method ParseManifestFiles(buf: bytes) returns (code: InstallResult, files: array<Record>, count: nat)
    ensures count <= files.Length && fresh(files)
    ensures code == InstallOk ==> ParseManifest(buf) == Some(files[..count])
    ensures code != InstallOk ==> code == ManifestParse && ParseManifest(buf) == None && count == 0
  {
    hide ReadRecords, SkipSpace, AfterKey;
    var found, after := FindFilesKey(buf);
    if !found {
      return ManifestParse, new Record[0], 0;
    }
    var colon := SkipJsonWhitespace(buf, after);
    if colon >= |buf| || buf[colon] != COLON {
      return ManifestParse, new Record[0], 0;
    }
    assert buf[colon..][1..] == buf[colon + 1..];
    var bracket := SkipJsonWhitespace(buf, colon + 1);
    if bracket >= |buf| || buf[bracket] != LBRACKET {
      return ManifestParse, new Record[0], 0;
    }
    assert buf[bracket..][1..] == buf[bracket + 1..];
    code, files, count := ParseRecords(buf, bracket + 1);
  }
}
