/** The language of manifests the device reads, as texts that can be written down, and the proof that the
    reader accepts exactly these and finds in each exactly the records it was written for. */
module ManifestGrammar {
  import opened Bytes
  import opened ManifestFormat

  // ---- The language ----

  /** A character of a string: as it is, or behind a backslash. */
  datatype Piece = Plain(c: byte) | Escape(c: byte)

  predicate GoodPiece(p: Piece) {
    match p
    case Plain(c) => c != 34 && c != 92
    case Escape(c) => c == 34 || c == 92 || c == 47
  }

  ghost predicate GoodPieces(ps: seq<Piece>) {
    forall k | 0 <= k < |ps| :: GoodPiece(ps[k])
  }

  /** What the string stands for. */
  function Meaning(ps: seq<Piece>): (v: bytes)
    ensures |v| == |ps|
  {
    seq(|ps|, k requires 0 <= k < |ps| => ps[k].c)
  }

  /** The pieces as written, before `tail`. */
  function Spelled(ps: seq<Piece>, tail: bytes): bytes {
    if ps == [] then tail
    else (if ps[0].Plain? then [ps[0].c] else [92, ps[0].c]) + Spelled(ps[1..], tail)
  }

  function Literal(ps: seq<Piece>, tail: bytes): bytes {
    [34] + Spelled(ps, [34] + tail)
  }

  /** Tabs, line ends and spaces. */
  predicate White(s: bytes) {
    forall i | 0 <= i < |s| :: s[i] == 9 || s[i] == 10 || s[i] == 13 || s[i] == 32
  }

  /** Between the braces of an object: commas, and fields of a key and a value, in any order and number. */
  datatype Item =
    | Comma(before: bytes)
    | Field(before: bytes, key: seq<Piece>, afterKey: bytes, afterColon: bytes, value: seq<Piece>)

  /** The key `path`, up to its first NUL. */
  ghost predicate KeysPath(ps: seq<Piece>) {
    CString(Meaning(ps)) == [112, 97, 116, 104]
  }

  /** The key `sha256`, up to its first NUL. */
  ghost predicate KeysHash(ps: seq<Piece>) {
    CString(Meaning(ps)) == [115, 104, 97, 50, 53, 54]
  }

  /** Only these two keys, of at most 15 characters; a path of at most 255, a hash of exactly 64 without NUL. */
  ghost predicate GoodItem(i: Item) {
    && White(i.before)
    && (i.Field? ==>
          && GoodPieces(i.key) && GoodPieces(i.value) && White(i.afterKey) && White(i.afterColon) && |i.key| <= 15
          && ((KeysPath(i.key) && |i.value| <= 255) || (KeysHash(i.key) && |i.value| == 64 && 0 !in Meaning(i.value))))
  }

  function FieldText(i: Item, tail: bytes): bytes
    requires i.Field?
  {
    Literal(i.key, i.afterKey + ([58] + (i.afterColon + Literal(i.value, tail))))
  }

  function ItemText(i: Item, tail: bytes): bytes {
    i.before + (if i.Comma? then [44] + tail else FieldText(i, tail))
  }

  function ItemsText(items: seq<Item>, tail: bytes): bytes {
    if items == [] then tail else ItemText(items[0], ItemsText(items[1..], tail))
  }

  ghost predicate GoodItems(items: seq<Item>) {
    forall k | 0 <= k < |items| :: GoodItem(items[k])
  }

  /** What the fields say together: a later field overrides an earlier one. */
  ghost function Told(items: seq<Item>, f: Fields): Fields {
    if items == [] then f else Told(items[1..], Tell(items[0], f))
  }

  ghost function Tell(i: Item, f: Fields): Fields {
    if i.Comma? then f
    else if KeysPath(i.key) then f.(path := Some(Meaning(i.value)))
    else f.(hash := Some(Meaning(i.value)))
  }

  /** Between the brackets of the list: commas and objects. */
  datatype Element = Separator(before: bytes) | Object(before: bytes, items: seq<Item>, close: bytes)

  ghost predicate GoodElement(e: Element) {
    && White(e.before)
    && (e.Object? ==>
          && GoodItems(e.items) && White(e.close)
          && var f := Told(e.items, Fields(None, None)); f.path.Some? && f.hash.Some?)
  }

  function ElementText(e: Element, tail: bytes): bytes {
    e.before + (if e.Separator? then [44] + tail else [123] + ItemsText(e.items, e.close + ([125] + tail)))
  }

  function ElementsText(es: seq<Element>, tail: bytes): bytes {
    if es == [] then tail else ElementText(es[0], ElementsText(es[1..], tail))
  }

  ghost predicate GoodElements(es: seq<Element>) {
    forall k | 0 <= k < |es| :: GoodElement(es[k])
  }

  ghost function RecordsIn(es: seq<Element>): seq<Record>
    requires GoodElements(es)
  {
    if es == [] then []
    else
      (if es[0].Separator? then []
       else var f := Told(es[0].items, Fields(None, None)); [Record(f.path.value, f.hash.value)])
      + RecordsIn(es[1..])
  }

  /** The whole text: anything before the first `"files"`, the list, and anything after its bracket. */
  datatype Layout = Layout(head: bytes, afterKey: bytes, afterColon: bytes, list: seq<Element>, close: bytes,
    rest: bytes)

  function LayoutText(l: Layout): bytes {
    l.head + ([34, 102, 105, 108, 101, 115, 34] + (l.afterKey + ([58] + (l.afterColon + ([91]
      + ElementsText(l.list, l.close + ([93] + l.rest)))))))
  }

  ghost predicate GoodLayout(l: Layout) {
    && White(l.afterKey) && White(l.afterColon) && White(l.close) && GoodElements(l.list)
    && forall i | 0 <= i < |l.head| :: !KeyAt(LayoutText(l), i)
  }

  /** At `i` stand the seven bytes `"files"`. */
  predicate KeyAt(s: bytes, i: nat) {
    i + 7 <= |s| && s[i..i + 7] == [34, 102, 105, 108, 101, 115, 34]
  }

  // ---- White space and strings ----

  lemma {:induction false} WhiteIsSkipped(w: bytes, rest: bytes)
    requires White(w) && (rest == [] || rest[0] !in {9, 10, 13, 32})
    ensures SkipSpace(w + rest) == rest
  {
    if w == [] {
      assert w + rest == rest;
    } else {
      assert (w + rest)[1..] == w[1..] + rest;
      WhiteIsSkipped(w[1..], rest);
    }
  }

  lemma {:induction false} SkippedIsWhite(s: bytes) returns (w: bytes)
    ensures White(w) && s == w + SkipSpace(s)
  {
    if s != [] && IsJsonSpace(s[0]) {
      var v := SkippedIsWhite(s[1..]);
      w := [s[0]] + v;
      assert s == [s[0]] + s[1..];
    } else {
      w := [];
    }
  }

  lemma {:induction false} SpelledIsRead(ps: seq<Piece>, tail: bytes, room: nat)
    requires GoodPieces(ps)
    ensures StringBody(Spelled(ps, [34] + tail), room) == if |ps| <= room then Some(Read(Meaning(ps), tail)) else None
  {
    var s := Spelled(ps, [34] + tail);
    if ps == [] {
      assert s[1..] == tail;
    } else {
      assert GoodPiece(ps[0]);
      var rest := Spelled(ps[1..], [34] + tail);
      if room > 0 {
        SpelledIsRead(ps[1..], tail, room - 1);
      }
      assert Meaning(ps) == [ps[0].c] + Meaning(ps[1..]);
      if ps[0].Plain? {
        assert s[1..] == rest;
      } else {
        assert s[1] == ps[0].c && s[2..] == rest;
      }
    }
  }

  lemma {:induction false} ReadIsSpelled(s: bytes, room: nat) returns (ps: seq<Piece>)
    requires StringBody(s, room).Some?
    ensures var r := StringBody(s, room).value;
            GoodPieces(ps) && |ps| <= room && r.value == Meaning(ps) && s == Spelled(ps, [34] + r.rest)
    decreases |s|
  {
    var r := StringBody(s, room).value;
    if s[0] == QUOTE {
      ps := [];
      assert s == [34] + s[1..];
    } else if s[0] != BACKSLASH {
      var more := ReadIsSpelled(s[1..], room - 1);
      ps := [Plain(s[0])] + more;
      assert ps[1..] == more && s == [s[0]] + s[1..];
    } else {
      var more := ReadIsSpelled(s[2..], room - 1);
      ps := [Escape(s[1])] + more;
      assert ps[1..] == more && s == [92, s[1]] + s[2..];
    }
  }

  lemma LiteralIsRead(ps: seq<Piece>, tail: bytes, room: nat)
    requires GoodPieces(ps)
    ensures ReadString(Literal(ps, tail), room) == if |ps| <= room then Some(Read(Meaning(ps), tail)) else None
  {
    SpelledIsRead(ps, tail, room);
    assert Literal(ps, tail)[1..] == Spelled(ps, [34] + tail);
  }

  lemma ReadIsLiteral(s: bytes, room: nat) returns (ps: seq<Piece>)
    requires ReadString(s, room).Some?
    ensures var r := ReadString(s, room).value;
            GoodPieces(ps) && |ps| <= room && r.value == Meaning(ps) && s == Literal(ps, r.rest)
  {
    ps := ReadIsSpelled(s[1..], room);
    assert s == [34] + s[1..];
  }

  // ---- Fields and objects ----

  ghost predicate Storable(f: Fields) {
    && (f.path.Some? ==> |f.path.value| <= MAX_PATH)
    && (f.hash.Some? ==> |f.hash.value| == HASH_LENGTH && NUL !in f.hash.value)
  }

  lemma KeysSpelled()
    ensures PATH == [112, 97, 116, 104] && SHA256 == [115, 104, 97, 50, 53, 54]
  {
  }

  lemma TellIsStorable(i: Item, f: Fields)
    requires GoodItem(i) && Storable(f)
    ensures Storable(Tell(i, f))
  {
  }

  lemma FieldIsRead(i: Item, f: Fields, tail: bytes)
    requires i.Field? && GoodItem(i) && Storable(f)
    ensures ReadField(FieldText(i, tail), f) == Some(Read(Tell(i, f), tail))
  {
    KeysSpelled();
    hide Literal, SkipSpace, ReadString, PATH, SHA256;
    var value := Literal(i.value, tail);
    var colon := [58] + (i.afterColon + value);
    LiteralIsRead(i.key, i.afterKey + colon, MAX_KEY);
    WhiteIsSkipped(i.afterKey, colon);
    assert colon[1..] == i.afterColon + value;
    LiteralStarts(i.value, tail);
    WhiteIsSkipped(i.afterColon, value);
    LiteralIsRead(i.value, tail, MAX_PATH);
    LiteralIsRead(i.value, tail, HASH_LENGTH);
    if KeysHash(i.key) {
      CStringWhole(Meaning(i.value));
    }
  }

  lemma LiteralStarts(ps: seq<Piece>, tail: bytes)
    ensures Literal(ps, tail) != [] && Literal(ps, tail)[0] == 34
  {
  }

  lemma ReadIsField(t: bytes, f: Fields) returns (i: Item)
    requires Storable(f) && ReadField(t, f).Some?
    ensures var r := ReadField(t, f).value;
            i.Field? && i.before == [] && GoodItem(i) && t == FieldText(i, r.rest) && r.value == Tell(i, f)
  {
    KeysSpelled();
    hide Literal, SkipSpace, ReadString, PATH, SHA256, Meaning;
    var key := ReadIsLiteral(t, MAX_KEY);
    var afterRead := ReadString(t, MAX_KEY).value.rest;
    var afterKey := SkippedIsWhite(afterRead);
    var u := SkipSpace(afterRead);
    assert u == [58] + u[1..];
    var afterColon := SkippedIsWhite(u[1..]);
    var v := SkipSpace(u[1..]);
    var isPath := CString(Meaning(key)) == PATH;
    var value := ReadIsLiteral(v, if isPath then MAX_PATH else HASH_LENGTH);
    i := Field([], key, afterKey, afterColon, value);
    if !isPath {
      CStringIsPrefix(Meaning(value));
    }
  }

  lemma {:induction false} ItemsAreRead(items: seq<Item>, close: bytes, f: Fields, tail: bytes)
    requires GoodItems(items) && White(close) && Storable(f)
    ensures ReadFields(ItemsText(items, close + ([125] + tail)), f) == Some(Read(Told(items, f), tail))
    decreases |items|
  {
    hide ReadField, SkipSpace, FieldText;
    if items == [] {
      WhiteIsSkipped(close, [125] + tail);
      assert ([125] + tail)[1..] == tail;
    } else {
      var i := items[0];
      assert GoodItem(i);
      var rest := ItemsText(items[1..], close + ([125] + tail));
      TellIsStorable(i, f);
      ItemsAreRead(items[1..], close, Tell(i, f), tail);
      if i.Comma? {
        WhiteIsSkipped(i.before, [44] + rest);
        assert ([44] + rest)[1..] == rest;
      } else {
        FieldStarts(i, rest);
        WhiteIsSkipped(i.before, FieldText(i, rest));
        FieldIsRead(i, f, rest);
      }
    }
  }

  lemma FieldStarts(i: Item, tail: bytes)
    requires i.Field?
    ensures FieldText(i, tail) != [] && FieldText(i, tail)[0] == 34
  {
  }

  lemma {:induction false} ReadIsItems(s: bytes, f: Fields) returns (items: seq<Item>, close: bytes)
    requires Storable(f) && ReadFields(s, f).Some?
    ensures var r := ReadFields(s, f).value;
            && GoodItems(items) && White(close) && r.value == Told(items, f)
            && s == ItemsText(items, close + ([125] + r.rest))
    decreases |s|
  {
    hide ReadField, SkipSpace, FieldText, GoodItem;
    var r := ReadFields(s, f).value;
    var w := SkippedIsWhite(s);
    var t := SkipSpace(s);
    if t[0] == RBRACE {
      items, close := [], w;
      assert t == [125] + t[1..];
    } else if t[0] == COMMA {
      var more;
      more, close := ReadIsItems(t[1..], f);
      items := [Comma(w)] + more;
      CommaIsGood(w);
      assert items[1..] == more && t == [44] + t[1..];
    } else {
      var read := ReadField(t, f).value;
      var i := ReadIsField(t, f);
      FieldMoved(i, w);
      var more;
      more, close := ReadIsItems(read.rest, read.value);
      items := [i.(before := w)] + more;
      assert items[1..] == more;
      FieldTextMoved(i, w, read.rest);
    }
  }

  lemma CommaIsGood(w: bytes)
    requires White(w)
    ensures GoodItem(Comma(w))
  {
  }

  lemma FieldMoved(i: Item, w: bytes)
    requires i.Field? && GoodItem(i) && White(w)
    ensures GoodItem(i.(before := w))
    ensures forall f :: Tell(i.(before := w), f) == Tell(i, f)
  {
  }

  lemma FieldTextMoved(i: Item, w: bytes, tail: bytes)
    requires i.Field?
    ensures FieldText(i.(before := w), tail) == FieldText(i, tail)
  {
  }

  // ---- The list ----

  lemma {:induction false} ElementsAreRead(es: seq<Element>, close: bytes, tail: bytes)
    requires GoodElements(es) && White(close)
    ensures ReadRecords(ElementsText(es, close + ([93] + tail))) == Some(RecordsIn(es))
  {
    hide ReadFields, SkipSpace, ItemsText, Told;
    if es == [] {
      WhiteIsSkipped(close, [93] + tail);
    } else {
      var e := es[0];
      assert GoodElement(e);
      var rest := ElementsText(es[1..], close + ([93] + tail));
      ElementsAreRead(es[1..], close, tail);
      if e.Separator? {
        WhiteIsSkipped(e.before, [44] + rest);
        assert ([44] + rest)[1..] == rest;
        assert RecordsIn(es) == [] + RecordsIn(es[1..]) == RecordsIn(es[1..]);
      } else {
        var body := ItemsText(e.items, e.close + ([125] + rest));
        WhiteIsSkipped(e.before, [123] + body);
        assert ([123] + body)[1..] == body;
        ItemsAreRead(e.items, e.close, Fields(None, None), rest);
      }
    }
  }

  lemma {:induction false} ReadIsElements(s: bytes) returns (es: seq<Element>, close: bytes, rest: bytes)
    requires ReadRecords(s).Some?
    ensures GoodElements(es) && White(close) && ReadRecords(s).value == RecordsIn(es)
    ensures s == ElementsText(es, close + ([93] + rest))
    decreases |s|
  {
    hide ReadFields, SkipSpace, ItemsText, Told, GoodItems;
    var w := SkippedIsWhite(s);
    var t := SkipSpace(s);
    if t[0] == RBRACKET {
      es, close, rest := [], w, t[1..];
      assert t == [93] + rest;
    } else if t[0] == COMMA {
      var more;
      more, close, rest := ReadIsElements(t[1..]);
      es := [Separator(w)] + more;
      assert es[1..] == more && t == [44] + t[1..];
    } else {
      var read := ReadFields(t[1..], Fields(None, None)).value;
      var items, inner := ReadIsItems(t[1..], Fields(None, None));
      var more;
      more, close, rest := ReadIsElements(read.rest);
      es := [Object(w, items, inner)] + more;
      assert es[1..] == more && t == [123] + t[1..];
    }
  }

  // ---- The whole text ----

  lemma FilesKeySpelled()
    ensures FILES_KEY == [34, 102, 105, 108, 101, 115, 34]
  {
  }

  lemma KeyAtNext(s: bytes, i: nat)
    requires s != []
    ensures KeyAt(s, i + 1) <==> KeyAt(s[1..], i)
    ensures KeyAt(s, 0) <==> |s| >= 7 && s[..7] == [34, 102, 105, 108, 101, 115, 34]
  {
    if i + 8 <= |s| {
      assert s[i + 1..i + 8] == s[1..][i..i + 7];
    }
    assert |s| >= 7 ==> s[0..7] == s[..7];
  }

  lemma {:induction false} KeyIsFound(head: bytes, rest: bytes)
    requires forall i | 0 <= i < |head| :: !KeyAt(head + (FILES_KEY + rest), i)
    ensures AfterKey(head + (FILES_KEY + rest)) == Some(rest)
  {
    FilesKeySpelled();
    var s := head + (FILES_KEY + rest);
    if head == [] {
      assert s == FILES_KEY + rest;
      assert s[..7] == FILES_KEY && s[7..] == rest;
    } else {
      assert s[1..] == head[1..] + (FILES_KEY + rest);
      hide FILES_KEY, KeyAt;
      KeyAtNext(s, 0);
      assert !KeyAt(s, 0);
      forall i | 0 <= i < |head[1..]| ensures !KeyAt(s[1..], i) {
        KeyAtNext(s, i);
      }
      KeyIsFound(head[1..], rest);
    }
  }

  lemma {:induction false} FoundIsKey(s: bytes) returns (head: bytes)
    requires AfterKey(s).Some?
    ensures s == head + (FILES_KEY + AfterKey(s).value)
    ensures forall i | 0 <= i < |head| :: !KeyAt(s, i)
  {
    FilesKeySpelled();
    hide FILES_KEY, KeyAt;
    if s[..7] == FILES_KEY {
      head := [];
      assert s == s[..7] + s[7..];
    } else {
      var more := FoundIsKey(s[1..]);
      head := [s[0]] + more;
      assert s == [s[0]] + s[1..];
      KeyAtNext(s, 0);
      forall i | 0 <= i < |head| ensures !KeyAt(s, i) {
        if i > 0 {
          KeyAtNext(s, i - 1);
        }
      }
    }
  }

  /** The text from the key on. */
  function ArrayText(l: Layout): bytes {
    l.afterKey + ([58] + (l.afterColon + ([91] + ElementsText(l.list, l.close + ([93] + l.rest)))))
  }

  lemma LayoutIsRead(l: Layout)
    requires GoodLayout(l)
    ensures ParseManifest(LayoutText(l)) == Some(RecordsIn(l.list))
  {
    FilesKeySpelled();
    hide FILES_KEY, ReadRecords, SkipSpace, ElementsText, AfterKey, GoodElements, KeyAt;
    assert LayoutText(l) == l.head + (FILES_KEY + ArrayText(l));
    KeyIsFound(l.head, ArrayText(l));
    var elements := ElementsText(l.list, l.close + ([93] + l.rest));
    var colon := [58] + (l.afterColon + ([91] + elements));
    WhiteIsSkipped(l.afterKey, colon);
    assert colon[1..] == l.afterColon + ([91] + elements);
    WhiteIsSkipped(l.afterColon, [91] + elements);
    assert ([91] + elements)[1..] == elements;
    ElementsAreRead(l.list, l.close, l.rest);
  }

  lemma ReadIsLayout(s: bytes) returns (l: Layout)
    requires ParseManifest(s).Some?
    ensures GoodLayout(l) && s == LayoutText(l) && ParseManifest(s) == Some(RecordsIn(l.list))
  {
    FilesKeySpelled();
    hide FILES_KEY, ReadRecords, SkipSpace, ElementsText, AfterKey, GoodElements, KeyAt;
    var head := FoundIsKey(s);
    var after := AfterKey(s).value;
    var afterKey := SkippedIsWhite(after);
    var t := SkipSpace(after);
    var afterColon := SkippedIsWhite(t[1..]);
    var u := SkipSpace(t[1..]);
    var es, close, rest := ReadIsElements(u[1..]);
    l := Layout(head, afterKey, afterColon, es, close, rest);
    assert t == [58] + t[1..] && u == [91] + u[1..];
    assert after == ArrayText(l);
    assert s == LayoutText(l);
  }

  /** The reader, exactly: it finds these records if and only if the text is one of the language that holds
      them. Any other text is a parse error. */
  lemma ManifestIsExact(s: bytes, records: seq<Record>)
    ensures ParseManifest(s) == Some(records) <==>
              exists l :: GoodLayout(l) && s == LayoutText(l) && records == RecordsIn(l.list)
  {
    hide LayoutText, ParseManifest;
    if ParseManifest(s) == Some(records) {
      var l := ReadIsLayout(s);
    }
    if l :| GoodLayout(l) && s == LayoutText(l) && records == RecordsIn(l.list) {
      LayoutIsRead(l);
    }
  }
}
